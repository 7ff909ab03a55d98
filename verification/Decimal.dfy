/** Decimal digits: the value a digit string denotes, and the digits of a number. */
module Decimal {
  import opened Bytes

  function Val(s: seq<byte>): int
    decreases |s|
  {
    if s == [] then 0 else Val(s[..|s| - 1]) * 10 + (s[|s| - 1] - ZERO)
  }

  lemma ValBounds(s: seq<byte>)
    requires AllDigits(s)
    ensures Val(s) >= 0
  {}

  /** A longer digit string never denotes a smaller number. */
  lemma ValMonotone(s: seq<byte>, i: nat, j: nat)
    requires AllDigits(s) && i <= j <= |s|
    ensures 0 <= Val(s[..i]) <= Val(s[..j])
    decreases j - i
  {
    if i == j {
      ValBounds(s[..i]);
    } else {
      ValMonotone(s, i, j - 1);
      assert s[..j][..j - 1] == s[..j - 1];
    }
  }

  function TenTo(k: nat): nat { if k == 0 then 1 else 10 * TenTo(k - 1) }

  /** The first digit of a string counts as often as its place says, in the digits '0' to '9' of ASCII. */
  lemma {:induction false} FirstDigitCounts(d: byte, s: seq<byte>)
    requires AllDigits([d] + s)
    ensures 0x30 <= d <= 0x39 && Val([d] + s) == (d - 0x30) * TenTo(|s|) + Val(s)
    decreases |s|
  {
    assert ([d] + s)[0] == d;
    if s == [] {
      assert ([d] + s)[..0] == [];
    } else {
      var front := s[..|s| - 1];
      assert ([d] + s)[..|s|] == [d] + front;
      FirstDigitCounts(d, front);
      assert (d - 0x30) * (10 * TenTo(|front|)) == 10 * ((d - 0x30) * TenTo(|front|));
    }
  }

  /** Reading one more digit of a text. */
  lemma ValSlice(t: seq<byte>, p: nat, q: nat)
    requires p <= q < |t|
    ensures Val(t[p..q + 1]) == Val(t[p..q]) * 10 + (t[q] - ZERO)
  {
    assert t[p..q + 1][..q - p] == t[p..q];
  }

  lemma DigitsSlice(t: seq<byte>, p: nat, q: nat, r: nat)
    requires p <= q <= r <= |t| && AllDigits(t[p..r])
    ensures AllDigits(t[p..q])
  {
    assert t[p..q] == t[p..r][..q - p];
  }

  lemma ValSlices(t: seq<byte>, p: nat, q: nat, r: nat)
    requires p <= q <= r <= |t| && AllDigits(t[p..r])
    ensures 0 <= Val(t[p..q]) <= Val(t[p..r])
  {
    assert t[p..r][..q - p] == t[p..q] && t[p..r][..r - p] == t[p..r];
    ValMonotone(t[p..r], q - p, r - p);
  }

  function Digits(n: nat): (s: seq<byte>)
    ensures |s| > 0 && AllDigits(s)
  {
    if n < 10 then [ZERO + n] else Digits(n / 10) + [ZERO + n % 10]
  }

  lemma {:induction false} ValDigits(n: nat)
    ensures Val(Digits(n)) == n
    ensures Digits(n)[0] == ZERO ==> n == 0 && |Digits(n)| == 1
  {
    if n >= 10 {
      ValDigits(n / 10);
      assert Digits(n)[..|Digits(n)| - 1] == Digits(n / 10);
    } else {
      assert Digits(n)[..0] == [];
    }
  }
}
