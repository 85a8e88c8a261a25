/** Python's `float()` applied to a capture of the amount class `[0-9.]+`. On such
    text `float()` succeeds exactly when there is at most one dot and at least one
    digit ("12", "12.50", "12.", ".5"); "1.2.3" or "." raise `ValueError`.
    The value is kept as the exact decimal it spells. */
module Amount {
  import opened Results
  import opened Text

  predicate IsAmountChar(c: char) {
    IsDigit(c) || c == '.'
  }

  predicate AllAmountChars(s: string) {
    forall k :: 0 <= k < |s| ==> IsAmountChar(s[k])
  }

  function CountDots(s: string): nat {
    if |s| == 0 then 0 else (if s[0] == '.' then 1 else 0) + CountDots(s[1..])
  }

  predicate HasDigit(s: string) {
    |s| > 0 && (IsDigit(s[0]) || HasDigit(s[1..]))
  }

  lemma {:induction false} HasDigitAt(s: string, k: nat)
    requires k < |s| && IsDigit(s[k])
    ensures HasDigit(s)
  {
    if k > 0 && !IsDigit(s[0]) {
      HasDigitAt(s[1..], k - 1);
    }
  }

  /** Position of the first dot, or `|s|` when there is none. */
  function DotIndex(s: string): (i: nat)
    ensures i <= |s|
    ensures forall k :: 0 <= k < i ==> s[k] != '.'
    ensures i < |s| ==> s[i] == '.'
  {
    if |s| == 0 then 0 else if s[0] == '.' then 0 else 1 + DotIndex(s[1..])
  }

  lemma {:induction false} CountDotsConcat(a: string, b: string)
    ensures CountDots(a + b) == CountDots(a) + CountDots(b)
  {
    if |a| > 0 {
      assert (a + b)[1..] == a[1..] + b;
      CountDotsConcat(a[1..], b);
    } else {
      assert a + b == b;
    }
  }

  lemma {:induction false} NoDots(s: string)
    requires forall k :: 0 <= k < |s| ==> s[k] != '.'
    ensures CountDots(s) == 0
  {
    if |s| > 0 {
      NoDots(s[1..]);
    }
  }

  lemma {:induction false} SomeDot(s: string, k: nat)
    requires k < |s| && s[k] == '.'
    ensures CountDots(s) >= 1
  {
    if k > 0 {
      SomeDot(s[1..], k - 1);
    }
  }

  lemma {:induction false} TwoDots(s: string, i: nat, k: nat)
    requires i < k < |s| && s[i] == '.' && s[k] == '.'
    ensures CountDots(s) >= 2
  {
    if i > 0 {
      TwoDots(s[1..], i - 1, k - 1);
    } else {
      SomeDot(s[1..], k - 1);
    }
  }

  /** The text split at its first dot: the integer digits and the fraction digits. */
  lemma SplitAtDot(s: string)
    requires AllAmountChars(s) && CountDots(s) <= 1
    ensures var i := DotIndex(s);
            AllDigits(s[..i]) && (i < |s| ==> AllDigits(s[i + 1..]))
  {
    var i := DotIndex(s);
    forall k | 0 <= k < i ensures IsDigit(s[..i][k]) {
      assert s[..i][k] == s[k];
    }
    if i < |s| {
      forall k | i + 1 <= k < |s| ensures IsDigit(s[k]) {
        if s[k] == '.' {
          TwoDots(s, i, k);
        }
      }
    }
  }

  /** `x / 10^k`, written as `k` divisions by ten. */
  function Shift(x: real, k: nat): (r: real)
    ensures x >= 0.0 ==> r >= 0.0
  {
    if k == 0 then x else Shift(x, k - 1) / 10.0
  }

  lemma {:induction false} ShiftIsDivision(x: real, k: nat)
    ensures Shift(x, k) == x / Pow10(k) as real
  {
    if k > 0 {
      ShiftIsDivision(x, k - 1);
      assert Pow10(k) as real == 10.0 * Pow10(k - 1) as real;
    }
  }

  /** `float(s)` for `s` over `[0-9.]`: `None` is the `ValueError`. */
  function ParseAmount(s: string): (r: Option<real>)
    requires AllAmountChars(s)
    ensures r.Some? <==> CountDots(s) <= 1 && HasDigit(s)
    ensures r.Some? ==> r.value >= 0.0
    ensures r.Some? && AllDigits(s) ==> r.value == DigitsValue(s) as real
  {
    if CountDots(s) > 1 || !HasDigit(s) then None
    else
      SplitAtDot(s);
      var i := DotIndex(s);
      if i == |s| then
        assert s[..i] == s;
        Some(DigitsValue(s) as real)
      else
        var frac := s[i + 1..];
        SomeDot(s, i);
        Some(DigitsValue(s[..i]) as real + Shift(DigitsValue(frac) as real, |frac|))
  }

  lemma ParseAmountWithDot(s: string)
    requires AllAmountChars(s) && CountDots(s) == 1 && HasDigit(s)
    ensures DotIndex(s) < |s| && AllDigits(s[..DotIndex(s)]) && AllDigits(s[DotIndex(s) + 1..])
    ensures ParseAmount(s).Some?
    ensures ParseAmount(s).value
            == DigitsValue(s[..DotIndex(s)]) as real
               + Shift(DigitsValue(s[DotIndex(s) + 1..]) as real, |s| - DotIndex(s) - 1)
  {
    SplitAtDot(s);
    DotIndexBelow(s);
  }

  lemma {:induction false} DotIndexBelow(s: string)
    requires CountDots(s) >= 1
    ensures DotIndex(s) < |s|
  {
    if s[0] != '.' {
      DotIndexBelow(s[1..]);
    }
  }

  lemma DotIndexAt(s: string, i: nat)
    requires i < |s| && s[i] == '.'
    requires forall k :: 0 <= k < i ==> s[k] != '.'
    ensures DotIndex(s) == i
  {
  }

  lemma DigitsHaveNoDots(s: string)
    requires AllDigits(s)
    ensures AllAmountChars(s) && CountDots(s) == 0
  {
    NoDots(s);
  }

  /** The characters of `a + "." + b`: amount characters, with the only dot at `|a|`. */
  lemma DigitsDotDigitsChars(a: string, b: string)
    requires AllDigits(a) && AllDigits(b)
    ensures AllAmountChars(a + "." + b)
    ensures forall k :: 0 <= k < |a| ==> (a + "." + b)[k] != '.'
    ensures (a + "." + b)[|a|] == '.'
  {
    var s := a + "." + b;
    var w := |a|;
    forall k | 0 <= k < |s| ensures IsAmountChar(s[k]) {
      if k < w { assert s[k] == a[k]; } else if k > w { assert s[k] == b[k - w - 1]; }
    }
    forall k | 0 <= k < w ensures s[k] != '.' { assert s[k] == a[k]; }
  }

  /** The shape facts about `a + "." + b` that `ParseAmount` looks at. */
  lemma DigitsDotDigitsShape(a: string, b: string)
    requires AllDigits(a) && AllDigits(b) && |a| + |b| >= 1
    ensures AllAmountChars(a + "." + b)
    ensures DotIndex(a + "." + b) == |a|
    ensures CountDots(a + "." + b) == 1
    ensures HasDigit(a + "." + b)
  {
    var s := a + "." + b;
    DigitsDotDigitsChars(a, b);
    DotIndexAt(s, |a|);
    DigitsHaveNoDots(a);
    DigitsHaveNoDots(b);
    CountDotsConcat(a + ".", b);
    CountDotsConcat(a, ".");
    if |a| > 0 {
      assert IsDigit(s[0]) by { assert s[0] == a[0]; }
      HasDigitAt(s, 0);
    } else {
      assert IsDigit(s[1]) by { assert s[1] == b[0]; }
      HasDigitAt(s, 1);
    }
  }

  /** Integer digits, a dot and fraction digits (at least one digit in all) read as
      the decimal they spell. */
  lemma ParseDigitsDotDigits(a: string, b: string)
    requires AllDigits(a) && AllDigits(b) && |a| + |b| >= 1
    ensures AllAmountChars(a + "." + b)
    ensures ParseAmount(a + "." + b).Some?
    ensures ParseAmount(a + "." + b).value == DigitsValue(a) as real + Shift(DigitsValue(b) as real, |b|)
  {
    var s := a + "." + b;
    var w := |a|;
    DigitsDotDigitsShape(a, b);
    ParseAmountWithDot(s);
    assert s[..w] == a && s[w + 1..] == b;
  }

  /** A number written with `w` integer digits, a dot and `f` fraction digits reads
      back as that number: the decimal formatting of an amount round-trips. */
  lemma ParseFormattedAmount(n: nat, w: nat, c: nat, f: nat)
    requires n < Pow10(w) && c < Pow10(f) && w + f >= 1
    ensures AllAmountChars(Pad(n, w) + "." + Pad(c, f))
    ensures ParseAmount(Pad(n, w) + "." + Pad(c, f)).Some?
    ensures ParseAmount(Pad(n, w) + "." + Pad(c, f)).value == n as real + c as real / Pow10(f) as real
  {
    var a := Pad(n, w);
    var b := Pad(c, f);
    ParseDigitsDotDigits(a, b);
    DigitsValueOfPad(n, w);
    DigitsValueOfPad(c, f);
    assert Shift(DigitsValue(b) as real, |b|) == Shift(c as real, f);
    ShiftIsDivision(c as real, f);
  }
}
