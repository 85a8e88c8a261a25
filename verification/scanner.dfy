/** The pattern `parse_transaction` hands to `re.findall`:
      (\d{4}年\d{2}月\d{2}日).+?在(.+?)(消费|预授权)USD([0-9.]+)元
    matched the way Python's backtracking engine matches it. At a start position
    the date group is fixed-width; the lazy gap `.+?` is extended one character at a
    time, and for each gap ending at a `在` the lazy merchant group is extended one
    character at a time until the rest of the pattern matches; `.` is any character
    but a newline. The greedy amount `[0-9.]+` must be followed by `元`, which is not
    in its class, so only the maximal run can succeed. `findall` then takes the
    leftmost match, resumes after it, and repeats. */
module Scanner {
  import opened Results
  import opened Text
  import opened Amount

  const Consume: string := "消费"
  const PreAuth: string := "预授权"
  const Currency: string := "USD"

  /** `w` occurs in `s` at position `i`. */
  predicate HasAt(s: string, i: nat, w: string) {
    i + |w| <= |s| && forall k :: 0 <= k < |w| ==> s[i + k] == w[k]
  }

  /** Every character of `s[lo..hi]` is matched by `.` (none is a newline). */
  predicate NoNewline(s: string, lo: nat, hi: nat) {
    hi <= |s| && forall k :: lo <= k < hi ==> s[k] != '\n'
  }

  /** `\d{4}年\d{2}月\d{2}日` matching the whole of `d`. */
  predicate DateGroupOk(d: string) {
    && |d| == 11
    && AllDigits(d[..4]) && d[4] == '年'
    && AllDigits(d[5..7]) && d[7] == '月'
    && AllDigits(d[8..10]) && d[10] == '日'
  }

  /** The date group matches the eleven characters at `p`. */
  predicate DateAt(s: string, p: nat) {
    p + 11 <= |s| && DateGroupOk(s[p..p + 11])
  }

  /** End of the longest run of `[0-9.]` starting at `q`. */
  function RunEnd(s: string, q: nat): (e: nat)
    requires q <= |s|
    ensures q <= e <= |s|
    ensures forall k :: q <= k < e ==> IsAmountChar(s[k])
    ensures e == |s| || !IsAmountChar(s[e])
    decreases |s| - q
  {
    if q < |s| && IsAmountChar(s[q]) then RunEnd(s, q + 1) else q
  }

  /** A run of amount characters closed by a character outside the class can only
      be the longest one. */
  lemma RunEndUnique(s: string, q: nat, e: nat)
    requires q <= e < |s| && !IsAmountChar(s[e])
    requires forall k :: q <= k < e ==> IsAmountChar(s[k])
    ensures RunEnd(s, q) == e
  {
  }

  /** What follows the merchant group when the pattern succeeds at `m`. */
  datatype Tail = Tail(verb: string, amountStart: nat, amountEnd: nat)

  /** `(消费|预授权)USD([0-9.]+)元` matches at `m` with verb `v` and the amount
      group ending at `e` (where the `元` stands). */
  predicate TailOk(s: string, m: nat, v: string, e: nat) {
    && (v == Consume || v == PreAuth)
    && HasAt(s, m, v)
    && HasAt(s, m + |v|, Currency)
    && m + |v| + 3 < e < |s|
    && (forall k :: m + |v| + 3 <= k < e ==> IsAmountChar(s[k]))
    && s[e] == '元'
  }

  /** Length of the verb alternative `消费|预授权` that matches at `m`, or 0. */
  function VerbLength(s: string, m: nat): nat {
    if m + 2 <= |s| && s[m] == '消' && s[m + 1] == '费' then 2
    else if m + 3 <= |s| && s[m] == '预' && s[m + 1] == '授' && s[m + 2] == '权' then 3
    else 0
  }

  predicate CurrencyAt(s: string, i: nat) {
    i + 3 <= |s| && s[i] == 'U' && s[i + 1] == 'S' && s[i + 2] == 'D'
  }

  /** The rest of the pattern after the merchant group, tried at `m`. */
  function TailAt(s: string, m: nat): Option<Tail> {
    var n := VerbLength(s, m);
    if n == 0 || !CurrencyAt(s, m + n) then None
    else
      var q := m + n + 3;
      var e := RunEnd(s, q);
      if q < e && e < |s| && s[e] == '元' then Some(Tail(if n == 2 then Consume else PreAuth, q, e))
      else None
  }

  /** `TailAt` finds the only verb and amount end with which the rest of the
      pattern matches at `m`, and finds nothing when there is none. */
  lemma TailAtSpec(s: string, m: nat)
    ensures TailAt(s, m).Some? ==> TailOk(s, m, TailAt(s, m).value.verb, TailAt(s, m).value.amountEnd)
                                   && TailAt(s, m).value.amountStart == m + |TailAt(s, m).value.verb| + 3
    ensures forall v, e :: TailOk(s, m, v, e) ==>
              TailAt(s, m).Some? && TailAt(s, m).value.verb == v && TailAt(s, m).value.amountEnd == e
  {
    var n := VerbLength(s, m);
    forall v, e | TailOk(s, m, v, e)
      ensures TailAt(s, m).Some? && TailAt(s, m).value.verb == v && TailAt(s, m).value.amountEnd == e
    {
      assert s[m] == v[0] && s[m + 1] == v[1];
      if v == PreAuth {
        assert s[m + 2] == v[2];
      }
      assert n == |v|;
      assert s[m + n] == Currency[0] && s[m + n + 1] == Currency[1] && s[m + n + 2] == Currency[2];
      RunEndUnique(s, m + n + 3, e);
    }
    if TailAt(s, m).Some? {
      var v := TailAt(s, m).value.verb;
      assert HasAt(s, m, v) by {
        forall k | 0 <= k < |v| ensures s[m + k] == v[k] {
          if k == 0 {} else if k == 1 {} else {}
        }
      }
      assert HasAt(s, m + n, Currency) by {
        forall k | 0 <= k < 3 ensures s[m + n + k] == Currency[k] {
          if k == 0 {} else if k == 1 {} else {}
        }
      }
    }
  }

  /** The lazy search behind `.+?` and `(.+?)`, whose first character is at
      `lo - 1`: the first position from `k` on where `ok` holds, every character
      passed over being one `.` can match. It stops at the least such position. */
  function Lazy(s: string, ok: seq<bool>, lo: nat, k: nat): (r: Option<nat>)
    requires |ok| == |s| + 1 && 1 <= lo <= k && NoNewline(s, lo - 1, k)
    ensures r.Some? ==> k <= r.value <= |s| && ok[r.value] && NoNewline(s, lo - 1, r.value)
    ensures forall j :: k <= j <= |s| && ok[j] && NoNewline(s, lo - 1, j) ==> r.Some? && r.value <= j
    decreases |s| - k
  {
    if ok[k] then Some(k)
    else if k < |s| && s[k] != '\n' then Lazy(s, ok, lo, k + 1)
    else None
  }

  /** The positions at which the rest of the pattern after the merchant succeeds. */
  function Tails(s: string): (ok: seq<bool>)
    ensures |ok| == |s| + 1 && forall m :: 0 <= m <= |s| ==> ok[m] == TailAt(s, m).Some?
  {
    seq(|s| + 1, m requires 0 <= m <= |s| => TailAt(s, m).Some?)
  }

  /** The merchant group ending at `m`, after the `在` at `g`, lets the pattern succeed. */
  predicate MerchantOk(s: string, g: nat, m: nat) {
    g + 2 <= m && NoNewline(s, g + 1, m) && TailAt(s, m).Some?
  }

  /** The shortest merchant group after the `在` at `g` that completes the pattern. */
  function Merchant(s: string, g: nat): (r: Option<nat>)
    ensures r.Some? ==> MerchantOk(s, g, r.value)
    ensures forall m :: MerchantOk(s, g, m) ==> r.Some? && r.value <= m
  {
    if g + 2 <= |s| && NoNewline(s, g + 1, g + 2) then Lazy(s, Tails(s), g + 2, g + 2) else None
  }

  /** The gap `.+?` after the date at `p` ends at a `在` at `g` that a merchant
      group can follow. */
  predicate AnchorOk(s: string, p: nat, g: nat) {
    p + 12 <= g && NoNewline(s, p + 11, g) && Opens(s, g)
  }

  /** A `在` stands at `g` and a merchant group can follow it. */
  predicate Opens(s: string, g: nat) {
    g < |s| && s[g] == '在' && Merchant(s, g).Some?
  }

  /** The positions holding a `在` that a merchant group can follow. */
  function Anchors(s: string): (ok: seq<bool>)
    ensures |ok| == |s| + 1
    ensures forall g :: 0 <= g <= |s| ==> ok[g] == Opens(s, g)
  {
    seq(|s| + 1, g requires 0 <= g <= |s| => Opens(s, g))
  }

  /** The shortest gap after the date at `p` that completes the pattern. */
  function Anchor(s: string, p: nat): (r: Option<nat>)
    ensures r.Some? ==> AnchorOk(s, p, r.value)
    ensures forall g :: AnchorOk(s, p, g) ==> r.Some? && r.value <= g
  {
    if p + 12 <= |s| && NoNewline(s, p + 11, p + 12) then Lazy(s, Anchors(s), p + 12, p + 12) else None
  }

  lemma IsMatchAnchor(s: string, p: nat, g: nat, m: nat)
    requires IsMatch(s, p, g, m)
    ensures AnchorOk(s, p, g)
  {
  }

  /** The anchor and merchant the lazy groups settle on come first among all ways
      the pattern can match at `p`. */
  lemma LeastMatch(s: string, p: nat)
    requires Anchor(s, p).Some? && Merchant(s, Anchor(s, p).value).Some?
    ensures forall g, m :: IsMatch(s, p, g, m) ==>
              Anchor(s, p).value < g
              || (Anchor(s, p).value == g && Merchant(s, g).value <= m)
  {
    forall g, m | IsMatch(s, p, g, m)
      ensures Anchor(s, p).value < g || (Anchor(s, p).value == g && Merchant(s, g).value <= m)
    {
      IsMatchAnchor(s, p, g, m);
    }
  }

  /** One match: where it starts, where the `在` and the verb stand, and the
      amount group `s[amountStart..amountEnd]`; the `元` is at `amountEnd`. */
  datatype Match = Match(start: nat, anchor: nat, verbAt: nat, verb: string, amountStart: nat, amountEnd: nat)
  {
    /** Position just after the match, where `findall` resumes. */
    function End(): nat {
      amountEnd + 1
    }
  }

  /** The whole pattern matches at `p` with the gap ending at `g` and the merchant at `m`. */
  predicate IsMatch(s: string, p: nat, g: nat, m: nat) {
    && DateAt(s, p)
    && p + 12 <= g < |s| && NoNewline(s, p + 11, g) && s[g] == '在'
    && MerchantOk(s, g, m)
  }

  /** Everything a match found at its start guarantees about the text. */
  predicate Shaped(s: string, mt: Match) {
    && DateAt(s, mt.start)
    && mt.start + 12 <= mt.anchor && mt.anchor + 2 <= mt.verbAt
    && TailOk(s, mt.verbAt, mt.verb, mt.amountEnd)
    && mt.amountStart == mt.verbAt + |mt.verb| + 3
  }

  /** `pattern.match(s, p)`: the match Python's backtracking finds at exactly `p`,
      which is the one with the shortest gap and, for that gap, the shortest merchant. */
  function MatchAt(s: string, p: nat): (r: Option<Match>)
    ensures r.Some? ==> r.value.start == p && Shaped(s, r.value)
                        && IsMatch(s, p, r.value.anchor, r.value.verbAt)
    ensures r.Some? ==> forall g, m :: IsMatch(s, p, g, m) ==>
                          r.value.anchor < g || (r.value.anchor == g && r.value.verbAt <= m)
    ensures r.None? ==> forall g, m :: !IsMatch(s, p, g, m)
  {
    if !DateAt(s, p) then None
    else
      var a := Anchor(s, p);
      if a.None? then
        assert forall g, m :: !IsMatch(s, p, g, m) by {
          forall g, m | IsMatch(s, p, g, m) ensures false {
            IsMatchAnchor(s, p, g, m);
          }
        }
        None
      else
        var g := a.value;
        var m := Merchant(s, g).value;
        TailAtSpec(s, m);
        var t := TailAt(s, m).value;
        LeastMatch(s, p);
        Some(Match(p, g, m, t.verb, t.amountStart, t.amountEnd))
  }

  /** What `pattern.match(s, q)` gives at every position `q` from 0 to `|s|`. */
  function MatchTable(s: string): (t: seq<Option<Match>>)
    ensures |t| == |s| + 1
    ensures forall q :: 0 <= q < |t| ==> t[q] == MatchAt(s, q)
    ensures TableOk(t)
  {
    seq(|s| + 1, q requires 0 <= q <= |s| => MatchAt(s, q))
  }

  /** A match recorded at position `q` starts at `q`, is not empty and ends inside
      the text. */
  predicate TableOk(t: seq<Option<Match>>) {
    forall q :: 0 <= q < |t| && t[q].Some? ==> t[q].value.start == q < t[q].value.End() < |t|
  }

  /** No position in `[lo, hi)` starts a match. */
  predicate NoMatchIn(t: seq<Option<Match>>, lo: nat, hi: nat) {
    forall q :: lo <= q < hi && q < |t| ==> t[q].None?
  }

  /** `ms` is what a leftmost, non-overlapping scan reports from `p` on: the first
      match at or after `p`, then the scan resumed after it; nothing when no
      position from `p` to the end starts a match. */
  predicate IsScan(t: seq<Option<Match>>, p: nat, ms: seq<Match>)
    decreases |ms|
  {
    if |ms| == 0 then NoMatchIn(t, p, |t|)
    else
      && p <= ms[0].start < |t|
      && NoMatchIn(t, p, ms[0].start)
      && t[ms[0].start] == Some(ms[0])
      && IsScan(t, ms[0].End(), ms[1..])
  }

  /** The scan loop of `re.findall` over the table, from position `p`. */
  function Scan(t: seq<Option<Match>>, p: nat): (r: seq<Match>)
    requires TableOk(t)
    ensures IsScan(t, p, r)
    decreases |t| - p
  {
    if p >= |t| then []
    else
      match t[p]
      case Some(mt) =>
        var rest := Scan(t, mt.End());
        assert ([mt] + rest)[1..] == rest;
        [mt] + rest
      case None =>
        Scan(t, p + 1)
  }

  /** The scan is determined by the table: `Scan` is the only list satisfying
      `IsScan`. */
  lemma {:induction false} ScanUnique(t: seq<Option<Match>>, p: nat, ms: seq<Match>)
    requires TableOk(t) && IsScan(t, p, ms)
    ensures ms == Scan(t, p)
    decreases |t| - p
  {
    if p < |t| {
      match t[p]
      case Some(mt) =>
        assert ms[0] == mt;
        ScanUnique(t, mt.End(), ms[1..]);
        assert ms == [ms[0]] + ms[1..];
      case None =>
        ScanUnique(t, p + 1, ms);
    }
  }

  /** Every element of a scan is recorded in the table at its own start, the
      elements lie at or after `p` in text order, and no two overlap. */
  lemma {:induction false} ScanFacts(t: seq<Option<Match>>, p: nat, ms: seq<Match>)
    requires TableOk(t) && IsScan(t, p, ms)
    ensures forall i :: 0 <= i < |ms| ==> p <= ms[i].start < |t| && t[ms[i].start] == Some(ms[i])
    ensures forall i :: 0 < i < |ms| ==> ms[i - 1].End() <= ms[i].start
    decreases |ms|
  {
    if |ms| > 0 {
      var tail := ms[1..];
      ScanFacts(t, ms[0].End(), tail);
      forall i | 0 <= i < |ms| ensures p <= ms[i].start < |t| && t[ms[i].start] == Some(ms[i]) {
        if i > 0 {
          assert ms[i] == tail[i - 1];
        }
      }
      forall i | 0 < i < |ms| ensures ms[i - 1].End() <= ms[i].start {
        assert ms[i] == tail[i - 1];
        if i > 1 {
          assert ms[i - 1] == tail[i - 2];
          assert tail[i - 2].End() <= tail[i - 1].start;
        } else {
          assert ms[0].End() <= tail[0].start;
        }
      }
    }
  }

  /** `re.findall(pattern, s)` as the list of matches it is built from. */
  function FindAll(s: string): (r: seq<Match>)
    ensures IsScan(MatchTable(s), 0, r)
    ensures forall i :: 0 <= i < |r| ==> MatchAt(s, r[i].start) == Some(r[i])
    ensures forall i :: 0 < i < |r| ==> r[i - 1].End() <= r[i].start
  {
    var t := MatchTable(s);
    var r := Scan(t, 0);
    ScanFacts(t, 0, r);
    r
  }

  /** Every match `FindAll` reports has the shape a match guarantees. */
  lemma FindAllShaped(s: string)
    ensures forall i :: 0 <= i < |FindAll(s)| ==> Shaped(s, FindAll(s)[i])
  {
    var r := FindAll(s);
    forall i | 0 <= i < |r| ensures Shaped(s, r[i]) {
      assert MatchAt(s, r[i].start) == Some(r[i]);
    }
  }
}
