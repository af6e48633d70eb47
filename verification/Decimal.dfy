/** Decimal digits: what `to_int`, `std::format` and `std::from_chars` read and write. */
module Decimal {
  import opened Wrappers
  import opened Arithmetic

  predicate IsDigit(c: byte) {
    '0' as int <= c <= '9' as int
  }

  predicate AllDigits(s: bytes) {
    forall i :: 0 <= i < |s| ==> IsDigit(s[i])
  }

  function Pow10(n: nat): (r: nat)
    ensures r > 0
  {
    if n == 0 then 1 else 10 * Pow10(n - 1)
  }

  function Number(s: bytes): (n: nat)
    requires AllDigits(s)
  {
    if s == [] then 0 else Number(s[..|s| - 1]) * 10 + (s[|s| - 1] - '0' as int)
  }

  /** The last `width` decimal digits of n, zeros included. */
  function Pad(n: nat, width: nat): (s: bytes)
    ensures |s| == width && AllDigits(s)
  {
    if width == 0 then [] else
    var digit: byte := n % 10 + '0' as int;
    Pad(n / 10, width - 1) + [digit]
  }

  lemma {:induction false} Pow10Sum(m: nat, n: nat)
    ensures Pow10(m + n) == Pow10(m) * Pow10(n)
  {
    if m > 0 {
      Pow10Sum(m - 1, n);
    }
  }

  lemma {:induction false} NumberBound(s: bytes)
    requires AllDigits(s)
    ensures Number(s) < Pow10(|s|)
  {
    if s != [] {
      NumberBound(s[..|s| - 1]);
    }
  }

  lemma {:induction false} NumberOfPad(n: nat, width: nat)
    requires n < Pow10(width)
    ensures Number(Pad(n, width)) == n
  {
    if width > 0 {
      NumberOfPad(n / 10, width - 1);
      assert Pad(n, width)[..width - 1] == Pad(n / 10, width - 1);
    }
  }

  lemma {:induction false} PadOfNumber(s: bytes)
    requires AllDigits(s)
    ensures Pad(Number(s), |s|) == s
  {
    if s != [] {
      var most, last := s[..|s| - 1], s[|s| - 1] - '0' as int;
      PadOfNumber(most);
      Euclid(Number(s), Number(most), last, 10);
      assert s == most + [s[|s| - 1]];
    }
  }

  /** Leading digits are the digits of the quotient. */
  lemma {:induction false} PadPrefix(n: nat, width: nat, shown: nat)
    requires shown <= width
    ensures Pad(n, width)[..shown] == Pad(n / Pow10(width - shown), shown)
    decreases width - shown
  {
    if shown == width {
      assert Pad(n, width)[..width] == Pad(n, width);
      assert n / 1 == n;
    } else {
      PadPrefix(n / 10, width - 1, shown);
      assert Pad(n, width)[..shown] == Pad(n / 10, width - 1)[..shown];
      DivideTwice(n, 10, Pow10(width - 1 - shown));
    }
  }

  lemma DivideTwice(n: nat, a: nat, b: nat)
    requires a > 0 && b > 0
    ensures a * b > 0 && n / a / b == n / (a * b)
  {
    var q, r := n / a, n % a;
    var k, s := q / b, q % b;
    assert n == (k * b + s) * a + r == k * (a * b) + (s * a + r);
    ProductGrows(b - 1, s, a);
    Euclid(n, k, s * a + r, a * b);
  }

  /** The digits of n with no leading zero. */
  function Plain(n: nat): (s: bytes)
    ensures s != [] && AllDigits(s)
  {
    var digit: byte := n % 10 + '0' as int;
    if n < 10 then [digit] else Plain(n / 10) + [digit]
  }

  /** `{:0width}`: padded to the width, and longer when the number is. */
  function Format(n: nat, width: nat): (s: bytes)
    ensures AllDigits(s)
  {
    if n < Pow10(width) then Pad(n, width) else Plain(n)
  }

  lemma {:induction false} NumberOfPlain(n: nat)
    ensures Number(Plain(n)) == n
  {
    var s := Plain(n);
    if n >= 10 {
      NumberOfPlain(n / 10);
      assert s[..|s| - 1] == Plain(n / 10);
    } else {
      assert s[..0] == [];
    }
  }

  /** `to_int`: folds the digits from the left. */
  method ToInt(digits: bytes) returns (value: int)
    requires AllDigits(digits)
    ensures value == Number(digits)
  {
    value := 0;
    for i := 0 to |digits|
      invariant value == Number(digits[..i])
    {
      value := value * 10 + (digits[i] - '0' as int);
      assert digits[..i + 1][..i] == digits[..i];
    }
    assert digits[..|digits|] == digits;
  }
}
