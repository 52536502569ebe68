/** Decimal numbers as text: printing with zero padding, reading back, and when
    the order of the texts is the order of the numbers. */
module Decimals {

  function Digit(d: int): char
    requires 0 <= d < 10
  {
    ('0' as int + d) as char
  }

  predicate IsDigit(c: char) {
    '0' <= c <= '9'
  }

  predicate AllDigits(s: string) {
    forall k :: 0 <= k < |s| ==> IsDigit(s[k])
  }

  function DigitValue(c: char): int {
    c as int - '0' as int
  }

  /** `n` in decimal, padded with zeros to at least `width` digits. */
  function Pad(n: nat, width: nat): (s: string)
    ensures s != "" && |s| >= width && AllDigits(s)
    decreases n + width
  {
    if n < 10 && width <= 1 then [Digit(n)]
    else Pad(n / 10, if width == 0 then 0 else width - 1) + [Digit(n % 10)]
  }

  /** `n` in decimal. */
  function Dec(n: nat): string {
    Pad(n, 1)
  }

  /** The number a digit string stands for. */
  function Val(s: string): int {
    if s == "" then 0 else 10 * Val(s[..|s| - 1]) + DigitValue(s[|s| - 1])
  }

  lemma {:induction false} ValAppend(s: string, d: int)
    requires 0 <= d < 10
    ensures Val(s + [Digit(d)]) == 10 * Val(s) + d
  {
    assert (s + [Digit(d)])[..|s|] == s;
  }

  /** Reading undoes printing. */
  lemma {:induction false} ValPad(n: nat, width: nat)
    ensures Val(Pad(n, width)) == n
    decreases n + width
  {
    if n < 10 && width <= 1 {
      assert Pad(n, width) == "" + [Digit(n)];
      ValAppend("", n);
    } else {
      var w := if width == 0 then 0 else width - 1;
      ValPad(n / 10, w);
      ValAppend(Pad(n / 10, w), n % 10);
    }
  }

  function Pow10(n: nat): (p: int)
    ensures p >= 1
  {
    if n == 0 then 1 else 10 * Pow10(n - 1)
  }

  /** A number with no more digits than the width is printed at exactly that width. */
  lemma {:induction false} PadWidth(n: nat, width: nat)
    requires width > 0
    ensures n < Pow10(width) <==> |Pad(n, width)| == width
    decreases n + width
  {
    if width == 1 {
      assert Pow10(1) == 10 * Pow10(0);
      if n >= 10 {
        assert |Pad(n / 10, 0)| >= 1;
      }
    } else {
      PadWidth(n / 10, width - 1);
      assert n < Pow10(width) <==> n / 10 < Pow10(width - 1);
    }
  }

  /** How many digits a number has. */
  lemma {:induction false} DecWidth(n: nat, digits: nat)
    requires digits > 0 && n < Pow10(digits)
    ensures |Dec(n)| <= digits
    decreases digits
  {
    if n >= 10 {
      assert Pow10(1) == 10 * Pow10(0);
      DecSplit(n);
      DecWidth(n / 10, digits - 1);
    }
  }

  lemma {:induction false} DecSplit(n: nat)
    requires n >= 10
    ensures Dec(n) == Dec(n / 10) + [Digit(n % 10)]
  {
    ZeroWidth(n / 10);
  }

  lemma {:induction false} ZeroWidth(n: nat)
    ensures Pad(n, 0) == Pad(n, 1)
  {
  }

  /** A width the number fills anyway pads nothing. */
  lemma {:induction false} FilledWidth(n: nat, width: nat)
    requires n >= Pow10(width)
    ensures Pad(n, width) == Pad(n, width + 1)
  {
    if width > 0 {
      FilledWidth(n / 10, width - 1);
    }
  }

  // Text order.

  predicate Leq(a: string, b: string) {
    a == "" || (b != "" && (a[0] < b[0] || (a[0] == b[0] && Leq(a[1..], b[1..]))))
  }

  /** The order of the texts: the first difference decides, and a text comes before its
      continuations. */
  lemma {:induction false} LeqByFirstDifference(a: string, b: string, k: nat)
    requires k <= |a| && k <= |b| && a[..k] == b[..k]
    requires k == |a| || k == |b| || a[k] != b[k]
    ensures Leq(a, b) <==> k == |a| || (k < |b| && a[k] < b[k])
  {
    if k > 0 {
      assert a[0] == a[..k][0] && b[0] == b[..k][0];
      assert a[1..][..k - 1] == a[..k][1..] && b[1..][..k - 1] == b[..k][1..];
      LeqByFirstDifference(a[1..], b[1..], k - 1);
    }
  }

  lemma {:induction false} LeqAntisymmetric(a: string, b: string)
    requires Leq(a, b) && Leq(b, a)
    ensures a == b
  {
    if a != "" {
      LeqAntisymmetric(a[1..], b[1..]);
      assert a == [a[0]] + a[1..] && b == [b[0]] + b[1..];
    }
  }

  lemma {:induction false} LeqReflexive(a: string)
    ensures Leq(a, a)
  {
    if a != "" {
      LeqReflexive(a[1..]);
    }
  }

  lemma {:induction false} LeqTotal(a: string, b: string)
    ensures Leq(a, b) || Leq(b, a)
  {
    if a != "" && b != "" {
      LeqTotal(a[1..], b[1..]);
    }
  }

  lemma {:induction false} LeqTransitive(a: string, b: string, c: string)
    requires Leq(a, b) && Leq(b, c)
    ensures Leq(a, c)
  {
    if a != "" && a[0] == b[0] && b[0] == c[0] {
      LeqTransitive(a[1..], b[1..], c[1..]);
    }
  }

  /** A common start does not matter. */
  lemma {:induction false} LeqCommonStart(p: string, a: string, b: string)
    ensures Leq(p + a, p + b) <==> Leq(a, b)
  {
    if p == "" {
      assert p + a == a && p + b == b;
    } else {
      assert (p + a)[1..] == p[1..] + a && (p + b)[1..] == p[1..] + b;
      LeqCommonStart(p[1..], a, b);
    }
  }

  /** For texts of one length, the last character decides only between equals. */
  lemma {:induction false} LeqByLast(a: string, x: string, b: string, y: string)
    requires |a| == |b|
    ensures Leq(a + x, b + y) <==> if a == b then Leq(x, y) else Leq(a, b)
  {
    if a == "" {
      assert a + x == x && b + y == y;
    } else {
      assert (a + x)[1..] == a[1..] + x && (b + y)[1..] == b[1..] + y;
      assert a == [a[0]] + a[1..] && b == [b[0]] + b[1..];
      LeqByLast(a[1..], x, b[1..], y);
    }
  }

  /** Zero padding makes the order of the texts the order of the numbers. */
  lemma {:induction false} TextOrderIsNumberOrder(a: string, b: string)
    requires |a| == |b| && AllDigits(a) && AllDigits(b)
    ensures Leq(a, b) <==> Val(a) <= Val(b)
    ensures a == b <==> Val(a) == Val(b)
  {
    if a != "" {
      var n := |a| - 1;
      TextOrderIsNumberOrder(a[..n], b[..n]);
      assert a == a[..n] + [a[n]] && b == b[..n] + [b[n]];
      LeqByLast(a[..n], [a[n]], b[..n], [b[n]]);
    }
  }
}
