/** String primitives the core relies on, each with the semantics of the library
    routine it stands for: Python's `str.strip` and `str.replace`, SQLite's
    `lower()`, `LIKE 'prefix%'` and its binary comparison of TEXT values. */
module Text {

  /** ASCII decimal digit (the `[0-9]` class, and `\d` restricted to ASCII). */
  predicate IsDigit(c: char) {
    '0' <= c <= '9'
  }

  predicate AllDigits(s: string) {
    forall k :: 0 <= k < |s| ==> IsDigit(s[k])
  }

  function DigitChar(n: nat): (c: char)
    requires n < 10
    ensures IsDigit(c)
  {
    ('0' as int + n) as char
  }

  function DigitValue(c: char): (n: nat)
    requires IsDigit(c)
    ensures n < 10 && DigitChar(n) == c
  {
    c as int - '0' as int
  }

  function Pow10(w: nat): (r: nat)
    ensures r >= 1
  {
    if w == 0 then 1 else 10 * Pow10(w - 1)
  }

  /** The number a string of digits spells, most significant digit first. */
  function DigitsValue(s: string): (n: nat)
    requires AllDigits(s)
    ensures n < Pow10(|s|)
  {
    if |s| == 0 then 0
    else DigitsValue(s[..|s| - 1]) * 10 + DigitValue(s[|s| - 1])
  }

  /** `n` written in exactly `w` digits, zero-padded on the left (as `%04d`, `%02d`). */
  function Pad(n: nat, w: nat): (s: string)
    ensures |s| == w && AllDigits(s)
  {
    if w == 0 then "" else Pad(n / 10, w - 1) + [DigitChar(n % 10)]
  }

  /** Padding and reading back are inverse: a number below `10^w` survives the round trip. */
  lemma {:induction false} DigitsValueOfPad(n: nat, w: nat)
    requires n < Pow10(w)
    ensures DigitsValue(Pad(n, w)) == n
  {
    if w > 0 {
      var s := Pad(n, w);
      assert s[..|s| - 1] == Pad(n / 10, w - 1);
      DigitsValueOfPad(n / 10, w - 1);
    }
  }

  /** ... and a digit string is the padding of the number it spells. */
  lemma {:induction false} PadOfDigitsValue(s: string)
    requires AllDigits(s)
    ensures Pad(DigitsValue(s), |s|) == s
  {
    if |s| > 0 {
      var init := s[..|s| - 1];
      var n := DigitsValue(s);
      assert AllDigits(init);
      assert n / 10 == DigitsValue(init) && n % 10 == DigitValue(s[|s| - 1]);
      PadOfDigitsValue(init);
      assert s == init + [s[|s| - 1]];
    }
  }

  function Sign(x: int): int {
    if x < 0 then -1 else if x == 0 then 0 else 1
  }

  /** Three-way comparison of two strings the way SQLite compares TEXT values under
      the default BINARY collation: by the first differing character (UTF-8 byte order
      and code-point order agree), a proper prefix sorting first. */
  function Cmp(a: string, b: string): (r: int)
    ensures r == -1 || r == 0 || r == 1
    ensures r == 0 <==> a == b
  {
    if |a| == 0 && |b| == 0 then 0
    else if |a| == 0 then -1
    else if |b| == 0 then 1
    else if a[0] < b[0] then -1
    else if a[0] > b[0] then 1
    else
      var r := Cmp(a[1..], b[1..]);
      assert r == 0 ==> a == [a[0]] + a[1..] == [b[0]] + b[1..] == b;
      r
  }

  /** The SQL test `b >= a` on TEXT values. */
  predicate AtLeast(b: string, a: string) {
    Cmp(a, b) <= 0
  }

  /** Comparing two concatenations whose heads have equal length: the heads decide,
      unless they are equal, in which case the tails do. */
  lemma {:induction false} CmpConcat(x1: string, y1: string, x2: string, y2: string)
    requires |x1| == |x2|
    ensures Cmp(x1 + y1, x2 + y2) == if x1 == x2 then Cmp(y1, y2) else Cmp(x1, x2)
  {
    if |x1| > 0 {
      assert (x1 + y1)[1..] == x1[1..] + y1;
      assert (x2 + y2)[1..] == x2[1..] + y2;
      CmpConcat(x1[1..], y1, x2[1..], y2);
      if x1[0] == x2[0] && x1 != x2 {
        assert x1 == [x1[0]] + x1[1..] && x2 == [x2[0]] + x2[1..];
      }
    } else {
      assert x1 + y1 == y1 && x2 + y2 == y2;
    }
  }

  /** Fixed-width zero-padded numbers compare as strings exactly as they compare as numbers. */
  lemma {:induction false} CmpPad(a: nat, b: nat, w: nat)
    requires a < Pow10(w) && b < Pow10(w)
    ensures Cmp(Pad(a, w), Pad(b, w)) == Sign(a - b)
  {
    if w == 0 {
    } else {
      CmpPad(a / 10, b / 10, w - 1);
      CmpConcat(Pad(a / 10, w - 1), [DigitChar(a % 10)], Pad(b / 10, w - 1), [DigitChar(b % 10)]);
      assert Pad(a / 10, w - 1) == Pad(b / 10, w - 1) <==> a / 10 == b / 10;
    }
  }

  predicate StartsWith(s: string, prefix: string) {
    |prefix| <= |s| && s[..|prefix|] == prefix
  }

  /** Python's `str.isspace` for a single character: the Unicode whitespace set
      (bidirectional classes WS, B, S and general category Zs). */
  predicate IsSpace(c: char) {
    || '\U{0009}' <= c <= '\U{000D}'
    || '\U{001C}' <= c <= '\U{0020}'
    || c == '\U{0085}' || c == '\U{00A0}' || c == '\U{1680}'
    || '\U{2000}' <= c <= '\U{200A}'
    || c == '\U{2028}' || c == '\U{2029}' || c == '\U{202F}' || c == '\U{205F}' || c == '\U{3000}'
  }

  /** The number of whitespace characters `s` starts with. */
  function LeadingSpaces(s: string): (n: nat)
    ensures n <= |s|
    ensures forall k :: 0 <= k < n ==> IsSpace(s[k])
    ensures n == |s| || !IsSpace(s[n])
  {
    if |s| > 0 && IsSpace(s[0]) then 1 + LeadingSpaces(s[1..]) else 0
  }

  /** `s.rstrip()`: drops the longest all-whitespace suffix. */
  function TrimEnd(s: string): (r: string)
    ensures |r| <= |s| && r == s[..|r|]
    ensures forall k :: |r| <= k < |s| ==> IsSpace(s[k])
    ensures r == [] || !IsSpace(r[|r| - 1])
  {
    if |s| > 0 && IsSpace(s[|s| - 1]) then TrimEnd(s[..|s| - 1]) else s
  }

  /** `s.strip()`: the slice of `s` left after removing whitespace from both ends;
      everything removed is whitespace and the slice neither starts nor ends with it. */
  function Strip(s: string): (r: string)
    ensures LeadingSpaces(s) + |r| <= |s|
    ensures r == s[LeadingSpaces(s)..LeadingSpaces(s) + |r|]
    ensures forall k :: LeadingSpaces(s) + |r| <= k < |s| ==> IsSpace(s[k])
    ensures r == [] || (!IsSpace(r[0]) && !IsSpace(r[|r| - 1]))
  {
    var lo := LeadingSpaces(s);
    var t := s[lo..];
    var r := TrimEnd(t);
    assert r == s[lo..lo + |r|] by { assert t[..|r|] == s[lo..lo + |r|]; }
    forall k | lo + |r| <= k < |s| ensures IsSpace(s[k]) {
      assert s[k] == t[k - lo];
    }
    r
  }

  /** Text with no whitespace in it is left alone by `strip()`. */
  lemma StripNoSpace(s: string)
    requires forall k :: 0 <= k < |s| ==> !IsSpace(s[k])
    ensures Strip(s) == s
  {
    assert LeadingSpaces(s) == 0;
  }

  /** `s.replace(old, new)` for a one-character `old`: every occurrence replaced. */
  function Replace(s: string, from: char, to: string): (r: string)
    ensures from !in to ==> from !in r
  {
    if |s| == 0 then ""
    else (if s[0] == from then to else [s[0]]) + Replace(s[1..], from, to)
  }

  lemma {:induction false} ReplaceConcat(a: string, b: string, from: char, to: string)
    ensures Replace(a + b, from, to) == Replace(a, from, to) + Replace(b, from, to)
  {
    if |a| > 0 {
      assert (a + b)[1..] == a[1..] + b;
      ReplaceConcat(a[1..], b, from, to);
    } else {
      assert a + b == b;
    }
  }

  /** A character in neither the text nor the replacement is not in the result. */
  lemma {:induction false} ReplaceKeepsOut(s: string, from: char, to: string, c: char)
    requires c !in s && c !in to
    ensures c !in Replace(s, from, to)
  {
    if |s| > 0 {
      assert c !in s[1..];
      ReplaceKeepsOut(s[1..], from, to, c);
    }
  }

  /** Every character of the result comes from `s` or from `to`. */
  lemma {:induction false} ReplaceFrom(s: string, from: char, to: string)
    ensures forall c :: c in Replace(s, from, to) ==> c in s || c in to
  {
    if |s| > 0 {
      ReplaceFrom(s[1..], from, to);
      assert forall c :: c in s[1..] ==> c in s;
    }
  }

  lemma {:induction false} ReplaceAbsent(s: string, from: char, to: string)
    requires from !in s
    ensures Replace(s, from, to) == s
  {
    if |s| > 0 {
      ReplaceAbsent(s[1..], from, to);
    }
  }

  /** SQLite's built-in `lower()`: folds ASCII capitals only. */
  function LowerChar(c: char): char {
    if 'A' <= c <= 'Z' then (c as int + 32) as char else c
  }

  function Lower(s: string): (r: string)
    ensures |r| == |s| && forall k :: 0 <= k < |s| ==> r[k] == LowerChar(s[k])
  {
    if |s| == 0 then "" else [LowerChar(s[0])] + Lower(s[1..])
  }

  /** `lower()` applied twice is `lower()` once: a lowercased name is its own key. */
  lemma LowerIdempotent(s: string)
    ensures Lower(Lower(s)) == Lower(s)
  {
  }

  /** Text without ASCII capitals is its own `lower()`. */
  lemma LowerNoCapitals(s: string)
    requires forall k :: 0 <= k < |s| ==> !('A' <= s[k] <= 'Z')
    ensures Lower(s) == s
  {
    assert forall k :: 0 <= k < |s| ==> Lower(s)[k] == s[k];
  }
}
