/** When the string order of TopN is the numeric order of the prices. */
module BestPrice {
  import opened OrderBook
  import opened TopLevels
  import Lex

  predicate IsDigit(c: char) {
    '0' <= c <= '9'
  }

  function Digit(c: char): int
    requires IsDigit(c)
  {
    c as int - '0' as int
  }

  predicate AllDigits(s: string) {
    forall i :: 0 <= i < |s| ==> IsDigit(s[i])
  }

  /** An unsigned decimal with k integer digits and any number of decimals. */
  predicate IsDecimal(s: string, k: nat) {
    && 0 < k <= |s|
    && AllDigits(s[..k])
    && (|s| == k || (s[k] == '.' && |s| > k + 1 && AllDigits(s[k + 1..])))
  }

  function Pow10(n: nat): (r: nat)
    ensures r >= 1
  {
    if n == 0 then 1 else 10 * Pow10(n - 1)
  }

  function Whole(s: string): nat
    requires AllDigits(s)
  {
    if s == "" then 0 else 10 * Whole(s[..|s| - 1]) + Digit(s[|s| - 1])
  }

  function Fraction(s: string): (r: real)
    requires AllDigits(s)
    ensures 0.0 <= r < 1.0
  {
    if s == "" then 0.0 else (Digit(s[0]) as real + Fraction(s[1..])) / 10.0
  }

  function Decimals(s: string, k: nat): (r: string)
    requires IsDecimal(s, k)
    ensures AllDigits(r)
  {
    if |s| == k then "" else s[k + 1..]
  }

  /** The number a price string denotes. */
  function Value(s: string, k: nat): real
    requires IsDecimal(s, k)
  {
    Whole(s[..k]) as real + Fraction(Decimals(s, k))
  }

  lemma {:induction false} LessSplit(a: string, b: string, k: nat)
    requires k <= |a| && k <= |b|
    ensures Lex.Less(a, b) <==> Lex.Less(a[..k], b[..k]) || (a[..k] == b[..k] && Lex.Less(a[k..], b[k..]))
  {
    if k > 0 {
      LessSplit(a[1..], b[1..], k - 1);
      assert a[1..][..k - 1] == a[..k][1..] && b[1..][..k - 1] == b[..k][1..];
      assert a[1..][k - 1..] == a[k..] && b[1..][k - 1..] == b[k..];
      assert a[..k] == [a[0]] + a[..k][1..] && b[..k] == [b[0]] + b[..k][1..];
    } else {
      assert a[k..] == a && b[k..] == b;
    }
  }

  lemma {:induction false} WholeMonotone(a: string, b: string)
    requires AllDigits(a) && AllDigits(b) && |a| == |b| && Lex.Less(a, b)
    ensures Whole(a) < Whole(b)
  {
    var m := |a| - 1;
    LessSplit(a, b, m);
    if Lex.Less(a[..m], b[..m]) {
      WholeMonotone(a[..m], b[..m]);
    } else {
      assert a[m..] == [a[m]] && b[m..] == [b[m]];
    }
  }

  lemma {:induction false} FractionMonotone(a: string, b: string)
    requires AllDigits(a) && AllDigits(b) && Lex.Less(a, b)
    ensures Fraction(a) <= Fraction(b)
  {
    if |a| > 0 {
      if a[0] == b[0] {
        FractionMonotone(a[1..], b[1..]);
      } else {
        assert Digit(a[0]) + 1 <= Digit(b[0]);
      }
    }
  }

  lemma StringOrderIsNumeric(a: string, b: string, k: nat)
    requires IsDecimal(a, k) && IsDecimal(b, k) && Lex.Less(a, b)
    ensures Value(a, k) <= Value(b, k)
  {
    LessSplit(a, b, k);
    if Lex.Less(a[..k], b[..k]) {
      WholeMonotone(a[..k], b[..k]);
    } else if |a| > k {
      assert a[k..][1..] == a[k + 1..] && b[k..][1..] == b[k + 1..];
      FractionMonotone(a[k + 1..], b[k + 1..]);
    }
  }

  /** With equally many integer digits on a side, the first level of TopN has the best price. */
  lemma BestPriceFirst(side: Side, descending: bool, n: nat, k: nat, price: string)
    requires n > 0 && price in side && forall p :: p in side ==> IsDecimal(p, k)
    ensures var best := Top(side, descending, n)[0].price;
      && best in side
      && (descending ==> Value(price, k) <= Value(best, k))
      && (!descending ==> Value(best, k) <= Value(price, k))
  {
    TopHead(side, descending, n);
    var best := Top(side, descending, n)[0].price;
    if price != best {
      assert Before(best, price, descending);
      if descending {
        StringOrderIsNumeric(price, best, k);
      } else {
        StringOrderIsNumeric(best, price, k);
      }
    }
  }

  /** The string order never contradicts the numeric one between p-digit and q-digit prices. */
  ghost predicate OrdersAgree(p: nat, q: nat) {
    forall a: string, b: string | IsDecimal(a, p) && IsDecimal(b, q) ::
      && (Lex.Less(a, b) ==> Value(a, p) <= Value(b, q))
      && (Lex.Less(b, a) ==> Value(b, q) <= Value(a, p))
  }

  function Repeat(c: char, n: nat): (s: string)
    ensures |s| == n && forall i :: 0 <= i < n ==> s[i] == c
  {
    seq(n, _ => c)
  }

  lemma {:induction false} NinesBelowPowerOfTen(n: nat)
    ensures Whole(Repeat('9', n)) + 1 == Pow10(n)
  {
    if n > 0 {
      NinesBelowPowerOfTen(n - 1);
      assert Repeat('9', n)[..n - 1] == Repeat('9', n - 1);
    }
  }

  lemma {:induction false} OneAndZeros(n: nat)
    ensures AllDigits("1" + Repeat('0', n)) && Whole("1" + Repeat('0', n)) == Pow10(n)
  {
    var s := "1" + Repeat('0', n);
    if n == 0 {
      assert s[..0] == "" && Digit(s[0]) == 1;
    } else {
      OneAndZeros(n - 1);
      assert s[..n] == "1" + Repeat('0', n - 1);
    }
  }

  lemma {:induction false} Pow10Monotone(m: nat, n: nat)
    requires m <= n
    ensures Pow10(m) <= Pow10(n)
  {
    if m < n {
      Pow10Monotone(m, n - 1);
    }
  }

  /** Nines of the shorter width sort above the power of ten of the longer one. */
  lemma WidthsDisagree(p: nat, q: nat)
    requires 1 <= p < q
    ensures var a, b := Repeat('9', p), "1" + Repeat('0', q - 1);
      && IsDecimal(a, p) && IsDecimal(b, q) && Lex.Less(b, a) && Value(a, p) < Value(b, q)
  {
    var a, b := Repeat('9', p), "1" + Repeat('0', q - 1);
    NinesBelowPowerOfTen(p);
    OneAndZeros(q - 1);
    Pow10Monotone(p, q - 1);
    assert a[..p] == a && b[..q] == b;
  }

  /** The comparison of TopN is numeric exactly between prices with equally many integer digits. */
  lemma OrdersAgreeExactly(p: nat, q: nat)
    requires p >= 1 && q >= 1
    ensures OrdersAgree(p, q) <==> p == q
  {
    if p == q {
      forall a: string, b: string | IsDecimal(a, p) && IsDecimal(b, q)
        ensures (Lex.Less(a, b) ==> Value(a, p) <= Value(b, q)) && (Lex.Less(b, a) ==> Value(b, q) <= Value(a, p))
      {
        if Lex.Less(a, b) { StringOrderIsNumeric(a, b, p); }
        if Lex.Less(b, a) { StringOrderIsNumeric(b, a, p); }
      }
    } else if p < q {
      WidthsDisagree(p, q);
    } else {
      WidthsDisagree(q, p);
    }
  }
}
