/** Decimal digits: the conversions between naturals, digit sequences and
    digit text that both converters render fields and parse them with.
 */
module Digits {

  /** One decimal digit as a number. */
  type Digit = d: int | 0 <= d < 10

  predicate IsDigitChar(c: char) {
    '0' <= c <= '9'
  }

  predicate AllDigitChars(s: string) {
    forall i :: 0 <= i < |s| ==> IsDigitChar(s[i])
  }

  /** The character of a digit. */
  function Char(d: Digit): (c: char)
    ensures IsDigitChar(c)
  {
    ('0' as int + d) as char
  }

  /** The digit of a character. */
  function Value(c: char): (d: Digit)
    requires IsDigitChar(c)
    ensures Char(d) == c
  {
    c as int - '0' as int
  }

  /** The text of a digit sequence. */
  function Text(ds: seq<Digit>): (s: string)
    ensures |s| == |ds| && AllDigitChars(s)
  {
    seq(|ds|, i requires 0 <= i < |ds| => Char(ds[i]))
  }

  /** The digits of a text made of digit characters; the inverse of `Text`. */
  function Values(s: string): (ds: seq<Digit>)
    requires AllDigitChars(s)
    ensures |ds| == |s|
    ensures Text(ds) == s
  {
    seq(|s|, i requires 0 <= i < |s| => Value(s[i]))
  }

  lemma ValuesOfText(ds: seq<Digit>)
    ensures Values(Text(ds)) == ds
  {
    var t := Text(ds);
    forall i | 0 <= i < |ds|
      ensures Values(t)[i] == ds[i]
    {
      assert t[i] == Char(ds[i]);
    }
  }

  function Pow10(k: nat): (r: nat)
    ensures r >= 1
  {
    if k == 0 then 1 else 10 * Pow10(k - 1)
  }

  lemma Pow10Monotonic(j: nat, k: nat)
    requires j <= k
    ensures Pow10(j) <= Pow10(k)
  {
    if j < k {
      Pow10Monotonic(j, k - 1);
    }
  }

  /** The natural number a digit sequence denotes, most significant digit first. */
  function FromDigits(ds: seq<Digit>): (n: nat)
    ensures n < Pow10(|ds|)
  {
    if |ds| == 0 then 0
    else
      var m := FromDigits(ds[..|ds| - 1]);
      assert m * 10 + ds[|ds| - 1] <= (Pow10(|ds| - 1) - 1) * 10 + 9;
      m * 10 + ds[|ds| - 1]
  }

  lemma FromDigitsSnoc(ds: seq<Digit>, d: Digit)
    ensures FromDigits(ds + [d]) == FromDigits(ds) * 10 + d
  {
    assert (ds + [d])[..|ds|] == ds;
  }

  /** The shortest digit sequence of `n`: no leading zero, at least one digit. */
  function ToDigits(n: nat): (ds: seq<Digit>)
    ensures 1 <= |ds|
    ensures FromDigits(ds) == n
    ensures n > 0 ==> ds[0] != 0
    ensures |ds| == 1 || Pow10(|ds| - 1) <= n
    decreases n
  {
    if n < 10 then [n]
    else
      var ds := ToDigits(n / 10) + [n % 10];
      FromDigitsSnoc(ToDigits(n / 10), n % 10);
      ds
  }

  /** Appending a digit to a positive number appends it to the number's digits. */
  lemma ToDigitsSnoc(n: nat, d: Digit)
    requires n >= 1
    ensures ToDigits(n * 10 + d) == ToDigits(n) + [d]
  {
    var m := n * 10 + d;
    assert m / 10 == n && m % 10 == d;
  }

  /** `n` fits in `w` digits exactly when it is below ten to the `w`. */
  lemma {:induction false} FitsWidth(n: nat, w: nat)
    requires w >= 1
    ensures |ToDigits(n)| <= w <==> n < Pow10(w)
  {
    var k := |ToDigits(n)|;
    if k <= w {
      Pow10Monotonic(k, w);
    } else {
      Pow10Monotonic(w, k - 1);
    }
  }

  function Zeros(k: nat): (ds: seq<Digit>)
    ensures |ds| == k
    ensures forall i :: 0 <= i < k ==> ds[i] == 0
  {
    seq(k, i => 0)
  }

  lemma {:induction false} LeadingZeros(k: nat, ds: seq<Digit>)
    ensures FromDigits(Zeros(k) + ds) == FromDigits(ds)
    decreases |ds|
  {
    if |ds| == 0 {
      ZerosAreZero(k);
      assert Zeros(k) + ds == Zeros(k);
    } else {
      var init := ds[..|ds| - 1];
      LeadingZeros(k, init);
      assert Zeros(k) + ds == (Zeros(k) + init) + [ds[|ds| - 1]];
      FromDigitsSnoc(Zeros(k) + init, ds[|ds| - 1]);
      FromDigitsSnoc(init, ds[|ds| - 1]);
      assert init + [ds[|ds| - 1]] == ds;
    }
  }

  lemma {:induction false} ZerosAreZero(k: nat)
    ensures FromDigits(Zeros(k)) == 0
  {
    if k > 0 {
      ZerosAreZero(k - 1);
      assert Zeros(k) == Zeros(k - 1) + [0];
      FromDigitsSnoc(Zeros(k - 1), 0);
    }
  }

  /** Zero-padding to a minimum width: the digits stay at the end. */
  function PadLeft(ds: seq<Digit>, w: nat): (r: seq<Digit>)
    ensures |r| == if |ds| >= w then |ds| else w
    ensures r[|r| - |ds|..] == ds
  {
    if |ds| >= w then ds else Zeros(w - |ds|) + ds
  }

  /** Padding does not change the number a digit sequence denotes. */
  lemma PadLeftValue(ds: seq<Digit>, w: nat)
    ensures FromDigits(PadLeft(ds, w)) == FromDigits(ds)
  {
    if |ds| < w {
      LeadingZeros(w - |ds|, ds);
    }
  }

  /** Digit sequences of one length that denote the same number are equal. */
  lemma {:induction false} FromDigitsInjective(a: seq<Digit>, b: seq<Digit>)
    requires |a| == |b| && FromDigits(a) == FromDigits(b)
    ensures a == b
    decreases |a|
  {
    if |a| > 0 {
      var k := |a| - 1;
      var x, y := FromDigits(a[..k]), FromDigits(b[..k]);
      assert x * 10 + a[k] == y * 10 + b[k];
      assert a[k] == b[k] && x == y by {
        var n := x * 10 + a[k];
        assert n / 10 == x && n % 10 == a[k];
        assert n / 10 == y && n % 10 == b[k];
      }
      FromDigitsInjective(a[..k], b[..k]);
      assert a == a[..k] + [a[k]] && b == b[..k] + [b[k]];
    }
  }

  /** Padding the shortest digits of a sequence's value to the sequence's
      length gives the sequence back, leading zeros included. */
  lemma PadLeftFromDigits(ds: seq<Digit>)
    requires |ds| >= 1
    ensures PadLeft(ToDigits(FromDigits(ds)), |ds|) == ds
  {
    var t := ToDigits(FromDigits(ds));
    FitsWidth(FromDigits(ds), |ds|);
    PadLeftValue(t, |ds|);
    FromDigitsInjective(PadLeft(t, |ds|), ds);
  }
}
