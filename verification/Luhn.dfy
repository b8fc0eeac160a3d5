/** The Luhn check on digits with arbitrary separators. */
module Luhn {
  import opened Findings
  import opened Text

  type digit = d: int | 0 <= d <= 9

  /** The digits of a text, in order. */
  function Digits(s: seq<byte>): seq<digit> {
    if s == [] then []
    else Digits(s[..|s| - 1]) + if IsDigit(s[|s| - 1]) then [s[|s| - 1] - 0x30] else []
  }

  /** What a digit adds: every second one counts double, with the digits of the double added up. */
  function Weight(d: digit, doubled: bool): digit {
    if !doubled then d else if 2 * d > 9 then 2 * d - 9 else 2 * d
  }

  /** The checksum of `ds`, whose last digit is doubled or not. */
  function Sum(ds: seq<digit>, doubled: bool): nat {
    if ds == [] then 0 else Sum(ds[..|ds| - 1], !doubled) + Weight(ds[|ds| - 1], doubled)
  }

  predicate Valid(ds: seq<digit>) {
    13 <= |ds| <= 19 && Sum(ds, false) % 10 == 0
  }

  /** What digit `x` adds at place `j`, counted from the right: at every second place the digits of its
      double, added up. */
  function AtPlace(x: digit, j: nat): nat {
    if j % 2 == 1 then 2 * x / 10 + 2 * x % 10 else x
  }

  /** The sum over the last `m` places. */
  function Total(ds: seq<digit>, m: nat): nat
    requires m <= |ds|
  {
    if m == 0 then 0 else Total(ds, m - 1) + AtPlace(ds[|ds| - m], m - 1)
  }

  /** The right-to-left loop over the text decides the check on its digits. */
  method LuhnValid(s: seq<byte>) returns (ok: bool)
    ensures ok == Valid(Digits(s))
    ensures ok <==> 13 <= |Digits(s)| <= 19 && Total(Digits(s), |Digits(s)|) % 10 == 0
  {
    hide Digits, Sum, Total;
    SumIsTotal(Digits(s));
    var sum, digits, alt := 0, 0, false;
    var i := |s| - 1;
    assert s[..|s|] == s;
    while i >= 0
      invariant -1 <= i < |s|
      invariant digits + |Digits(s[..i + 1])| == |Digits(s)|
      invariant sum + Sum(Digits(s[..i + 1]), alt) == Sum(Digits(s), false)
    {
      var c := s[i];
      NextDigit(s, i);
      if IsDigit(c) {
        var n := c - 0x30;
        OneMoreDigit(Digits(s[..i]), n, alt);
        if alt {
          n := n * 2;
          if n > 9 {
            n := n - 9;
          }
        }
        sum := sum + n;
        alt := !alt;
        digits := digits + 1;
      } else {
        assert Digits(s[..i]) + [] == Digits(s[..i]);
      }
      i := i - 1;
    }
    NoDigits(s);
    if digits < 13 || digits > 19 {
      return false;
    }
    return sum % 10 == 0;
  }

  lemma NextDigit(s: seq<byte>, i: nat)
    requires i < |s|
    ensures Digits(s[..i + 1]) == Digits(s[..i]) + if IsDigit(s[i]) then [s[i] - 0x30] else []
  {
    assert s[..i + 1][..i] == s[..i];
  }

  lemma NoDigits(s: seq<byte>)
    ensures Digits(s[..0]) == [] && Sum([], false) == 0 && Sum([], true) == 0
  {
  }

  lemma OneMoreDigit(ds: seq<digit>, d: digit, doubled: bool)
    ensures Sum(ds + [d], doubled) == Sum(ds, !doubled) + Weight(d, doubled)
  {
    assert (ds + [d])[..|ds|] == ds;
  }

  /** Position `k` of `n` digits is doubled when an odd number of digits follow it. */
  function Doubled(n: nat, k: nat, last: bool): bool
    requires k < n
  {
    if (n - 1 - k) % 2 == 0 then last else !last
  }

  /** Changing one digit changes the checksum by the difference of the two weights. */
  lemma {:induction false} SumUpdate(ds: seq<digit>, k: nat, d: digit, last: bool)
    requires k < |ds|
    ensures Sum(ds[k := d], last) - Weight(d, Doubled(|ds|, k, last))
            == Sum(ds, last) - Weight(ds[k], Doubled(|ds|, k, last))
  {
    hide Weight;
    var n := |ds| - 1;
    if k == n {
      assert ds[k := d][..n] == ds[..n];
    } else {
      assert ds[k := d][..n] == ds[..n][k := d];
      SumUpdate(ds[..n], k, d, !last);
    }
  }

  lemma WeightInjective(d: digit, e: digit, doubled: bool)
    requires Weight(d, doubled) == Weight(e, doubled)
    ensures d == e
  {
  }

  /** Every change of a single digit of a valid number is caught. */
  lemma SingleChangeCaught(ds: seq<digit>, k: nat, d: digit)
    requires Valid(ds) && k < |ds| && d != ds[k]
    ensures !Valid(ds[k := d])
  {
    hide Sum, Weight, Doubled;
    SumUpdate(ds, k, d, false);
    var b := Doubled(|ds|, k, false);
    if Weight(d, b) == Weight(ds[k], b) {
      WeightInjective(d, ds[k], b);
    }
    AddedToMultiple(Sum(ds, false), Weight(d, b) - Weight(ds[k], b));
  }

  /** Swapping neighbours of a valid number goes unnoticed exactly when they are equal or 0 and 9. */
  lemma SwapUnnoticedIff(ds: seq<digit>, k: nat)
    requires Valid(ds) && k + 1 < |ds|
    ensures var x, y := ds[k], ds[k + 1];
            Valid(ds[k := y][k + 1 := x]) <==> x == y || (x == 0 && y == 9) || (x == 9 && y == 0)
  {
    hide Sum, Weight, Doubled;
    var x, y := ds[k], ds[k + 1];
    var d := SwapDifference(ds, k);
    AddedToMultiple(Sum(ds, false), d);
  }

  /** What the swap adds to the checksum is a multiple of ten in exactly those cases. */
  lemma SwapDifference(ds: seq<digit>, k: nat) returns (d: int)
    requires k + 1 < |ds|
    ensures var x, y := ds[k], ds[k + 1];
            && Sum(ds[k := y][k + 1 := x], false) == Sum(ds, false) + d
            && (d % 10 == 0 <==> x == y || (x == 0 && y == 9) || (x == 9 && y == 0))
  {
    hide Sum, Weight;
    var x, y, b := ds[k], ds[k + 1], Doubled(|ds|, k, false);
    SumUpdate(ds, k, y, false);
    SumUpdate(ds[k := y], k + 1, x, false);
    assert Doubled(|ds|, k + 1, false) == !b;
    SwapWeights(x, y, b);
    d := Weight(y, b) + Weight(x, !b) - Weight(x, b) - Weight(y, !b);
  }

  lemma AddedToMultiple(s: int, d: int)
    requires s % 10 == 0
    ensures (s + d) % 10 == 0 <==> d % 10 == 0
  {
  }

  lemma SwapWeights(x: digit, y: digit, b: bool)
    ensures (Weight(y, b) + Weight(x, !b) - Weight(x, b) - Weight(y, !b)) % 10 == 0
            <==> x == y || (x == 0 && y == 9) || (x == 9 && y == 0)
  {
    DoubleLess(x);
    DoubleLess(y);
    hide Weight;
  }

  /** Doubling adds the digit itself, less nine from five on. */
  lemma DoubleLess(x: digit)
    ensures Weight(x, false) == x && Weight(x, true) == if x >= 5 then 2 * x - 9 else 2 * x
  {
  }

  /** Separators do not matter: inserting bytes that are not digits changes nothing. */
  lemma {:induction false} SeparatorsIgnored(s: seq<byte>, sep: seq<byte>, t: seq<byte>)
    requires forall i :: 0 <= i < |sep| ==> !IsDigit(sep[i])
    ensures Digits(s + sep + t) == Digits(s + t)
  {
    if t != [] {
      var n := |t| - 1;
      assert (s + sep + t)[..|s + sep + t| - 1] == s + sep + t[..n];
      assert (s + t)[..|s + t| - 1] == s + t[..n];
      SeparatorsIgnored(s, sep, t[..n]);
    } else if sep != [] {
      var n := |sep| - 1;
      assert s + sep + t == s + sep;
      assert (s + sep)[..|s + sep| - 1] == s + sep[..n];
      assert s + sep[..n] + t == s + sep[..n];
      SeparatorsIgnored(s, sep[..n], t);
    } else {
      assert s + sep + t == s + t;
    }
  }

  // ----- The checksum by places, and the check digit -------------------------------------------------

  /** Two more digits on the right: the first counts double, the second as it is. */
  lemma TwoMoreDigits(ds: seq<digit>, x: digit, y: digit)
    ensures Sum(ds + [x, y], false) == Sum(ds, false) + (2 * x / 10 + 2 * x % 10) + y
  {
    assert ds + [x, y] == (ds + [x]) + [y];
    OneMoreDigit(ds + [x], y, false);
    OneMoreDigit(ds, x, true);
  }

  lemma ShortSums(y: digit)
    ensures Sum([], false) == 0 && Sum([y], false) == y
  {
    OneMoreDigit([], y, false);
    assert [] + [y] == [y];
  }

  /** The recursive checksum is the sum over the places. */
  lemma {:induction false} SumIsTotal(ds: seq<digit>)
    ensures Sum(ds, false) == Total(ds, |ds|)
  {
    var n := |ds|;
    if n == 1 {
      ShortSums(ds[0]);
      assert ds == [ds[0]];
    } else if n >= 2 {
      var front, x, y := ds[..n - 2], ds[n - 2], ds[n - 1];
      assert ds == front + [x, y];
      TwoMoreDigits(front, x, y);
      SumIsTotal(front);
      TotalSkipsTwo(front, x, y, n - 2);
    }
  }

  lemma {:induction false} TotalSkipsTwo(ds: seq<digit>, x: digit, y: digit, m: nat)
    requires m <= |ds|
    ensures Total(ds + [x, y], m + 2) == Total(ds, m) + AtPlace(x, 1) + AtPlace(y, 0)
  {
    var all := ds + [x, y];
    if m == 0 {
      assert Total(all, 0) == 0;
      assert Total(all, 1) == AtPlace(y, 0);
    } else {
      TotalSkipsTwo(ds, x, y, m - 1);
      assert all[|all| - (m + 2)] == ds[|ds| - m];
      assert (m + 1) % 2 == (m - 1) % 2;
    }
  }

  /** The digit that completes `ds`: what the sum over the places lacks to the next multiple of ten. */
  function CheckDigit(ds: seq<digit>): digit {
    (10 - Total(ds + [0], |ds| + 1) % 10) % 10
  }

  /** Twelve to eighteen digits are completed to a valid number by exactly one digit. */
  lemma OneCheckDigit(ds: seq<digit>, d: digit)
    requires 12 <= |ds| <= 18
    ensures Valid(ds + [d]) <==> d == CheckDigit(ds)
  {
    hide Sum, Total;
    SumIsTotal(ds + [0]);
    OneMoreDigit(ds, 0, false);
    OneMoreDigit(ds, d, false);
    Completes(Sum(ds, true), d);
  }

  lemma Completes(s: nat, d: digit)
    ensures (s + d) % 10 == 0 <==> d == (10 - s % 10) % 10
  {
  }

  /** Digits written out in decimal are read back. */
  lemma {:induction false} DigitsReadBack(ds: seq<digit>, s: seq<byte>)
    requires |s| == |ds| && forall i :: 0 <= i < |ds| ==> s[i] == '0' as int + ds[i]
    ensures Digits(s) == ds
  {
    if s != [] {
      var n := |s| - 1;
      DigitsReadBack(ds[..n], s[..n]);
    }
  }
}
