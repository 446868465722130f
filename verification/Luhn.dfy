/** The Luhn check of card numbers, Annex B of ISO/IEC 7812-1. */
module Luhn {

  /** Twice a digit, with the digits of the product added up. */
  function Doubled(d: nat): nat
    requires d < 10
  {
    if d * 2 > 9 then d * 2 - 9 else d * 2
  }

  predicate IsDigits(ds: seq<nat>) {
    forall i :: 0 <= i < |ds| ==> ds[i] < 10
  }

  /** The weighted digit sum: every second digit from the right is doubled. */
  function Sum(ds: seq<nat>): nat
    requires IsDigits(ds)
  {
    if ds == [] then 0 else Weighted(ds[0], |ds| - 1) + Sum(ds[1..])
  }

  /** The share of a digit at distance i from the right end. */
  function Weighted(d: nat, i: nat): nat
    requires d < 10
  {
    if i % 2 == 1 then Doubled(d) else d
  }

  predicate Valid(ds: seq<nat>)
    requires IsDigits(ds)
  {
    Sum(ds) % 10 == 0
  }

  /** The _luhn_check of the content inspector and of the output guard. */
  method LuhnCheck(ds: seq<nat>) returns (ok: bool)
    requires IsDigits(ds)
    ensures ok == Valid(ds)
  {
    var checksum := 0;
    for i := 0 to |ds|
      invariant checksum == Sum(ds[|ds| - i..])
    {
      var d := ds[|ds| - 1 - i];
      assert ds[|ds| - i - 1..][1..] == ds[|ds| - i..];
      if i % 2 == 1 {
        d := d * 2;
        if d > 9 {
          d := d - 9;
        }
      }
      checksum := checksum + d;
    }
    assert ds[0..] == ds;
    ok := checksum % 10 == 0;
  }

  /** numStr.replace(/\D/g, ""), as numbers. */
  function DigitsOf(s: string): (ds: seq<nat>)
    ensures IsDigits(ds)
  {
    if s == "" then []
    else if '0' <= s[0] <= '9' then [(s[0] as int) - ('0' as int)] + DigitsOf(s[1..])
    else DigitsOf(s[1..])
  }

  /** luhn() of the message guard. */
  method LuhnOfText(text: string) returns (ok: bool)
    ensures ok <==> 13 <= |DigitsOf(text)| <= 19 && Valid(DigitsOf(text))
  {
    var digits := DigitsOf(text);
    if |digits| < 13 || |digits| > 19 {
      return false;
    }
    var sum := 0;
    var i := 0;
    while i < |digits|
      invariant 0 <= i <= |digits|
      invariant sum == Sum(digits[|digits| - i..])
    {
      var d := digits[|digits| - 1 - i];
      assert digits[|digits| - i - 1..][1..] == digits[|digits| - i..];
      if i % 2 == 1 {
        d := d * 2;
        if d > 9 {
          d := d - 9;
        }
      }
      sum := sum + d;
      i := i + 1;
    }
    assert digits[0..] == digits;
    ok := sum % 10 == 0;
  }

  lemma {:induction false} SumUpdate(ds: seq<nat>, i: nat, d: nat)
    requires IsDigits(ds) && i < |ds| && d < 10
    ensures IsDigits(ds[i := d])
    ensures Sum(ds[i := d]) == Sum(ds) - Weighted(ds[i], |ds| - 1 - i) + Weighted(d, |ds| - 1 - i)
  {
    if i == 0 {
      assert ds[0 := d][1..] == ds[1..];
    } else {
      assert ds[i := d][1..] == ds[1..][i - 1 := d];
      SumUpdate(ds[1..], i - 1, d);
    }
  }

  /** One digit changed: a valid number never stays valid. */
  lemma {:induction false} OneChangeDetected(ds: seq<nat>, i: nat, d: nat)
    requires IsDigits(ds) && Valid(ds) && i < |ds| && d < 10 && d != ds[i]
    ensures IsDigits(ds[i := d]) && !Valid(ds[i := d])
  {
    SumUpdate(ds, i, d);
    SmallShift(Sum(ds), Weighted(d, |ds| - 1 - i) - Weighted(ds[i], |ds| - 1 - i));
  }

  lemma {:induction false} SmallShift(sum: int, k: int)
    requires sum % 10 == 0 && -10 < k < 10
    ensures (sum + k) % 10 == 0 <==> k == 0
  {
  }

  /** Two neighbours exchanged: still valid exactly if they are equal or 0 and 9. */
  lemma {:induction false} ExchangeDetected(ds: seq<nat>, i: nat)
    requires IsDigits(ds) && Valid(ds) && i + 1 < |ds|
    ensures var other := ds[i := ds[i + 1]][i + 1 := ds[i]];
            && IsDigits(other)
            && (Valid(other) <==> ds[i] == ds[i + 1] || {ds[i], ds[i + 1]} == {0, 9})
  {
    var a, b := ds[i], ds[i + 1];
    SumUpdate(ds, i, b);
    SumUpdate(ds[i := b], i + 1, a);
    var w := |ds| - 1 - i;
    var k := Weighted(b, w) - Weighted(a, w) + Weighted(a, w - 1) - Weighted(b, w - 1);
    ExchangeShift(a, b, w);
    SmallShift(Sum(ds), k);
    ZeroNine(a, b);
  }

  lemma {:induction false} ExchangeShift(a: nat, b: nat, w: nat)
    requires a < 10 && b < 10 && w > 0
    ensures var k := Weighted(b, w) - Weighted(a, w) + Weighted(a, w - 1) - Weighted(b, w - 1);
            -10 < k < 10 && (k == 0 <==> a == b || (a == 0 && b == 9) || (a == 9 && b == 0))
  {
    assert w % 2 == 1 <==> (w - 1) % 2 == 0;
  }

  lemma {:induction false} ZeroNine(a: nat, b: nat)
    requires a < 10 && b < 10
    ensures (a == 0 && b == 9) || (a == 9 && b == 0) <==> {a, b} == {0, 9}
  {
    if {a, b} == {0, 9} {
      assert a in {0, 9} && b in {0, 9} && 0 in {a, b} && 9 in {a, b};
    }
  }

  lemma {:induction false} LastDigit(payload: seq<nat>, c: nat)
    requires IsDigits(payload) && c < 10
    ensures IsDigits(payload + [0]) && IsDigits(payload + [c])
    ensures Sum(payload + [c]) == Sum(payload + [0]) + c
  {
    hide Sum;
    SumUpdate(payload + [0], |payload|, c);
    assert (payload + [0])[|payload| := c] == payload + [c];
  }

  lemma {:induction false} Complement(sum: nat, c: nat)
    requires c < 10
    ensures (sum + c) % 10 == 0 <==> c == (10 - sum % 10) % 10
  {
    var r := sum % 10;
    assert sum == 10 * (sum / 10) + r;
    assert (sum + c) % 10 == (r + c) % 10;
  }

  /** Every payload has exactly one valid check digit. */
  lemma {:induction false} CheckDigitUnique(payload: seq<nat>) returns (check: nat)
    requires IsDigits(payload)
    ensures check < 10
    ensures forall c :: 0 <= c < 10 ==> IsDigits(payload + [c]) && (Valid(payload + [c]) <==> c == check)
  {
    LastDigit(payload, 0);
    hide IsDigits, Sum;
    var sum := Sum(payload + [0]);
    check := (10 - sum % 10) % 10;
    forall c | 0 <= c < 10 ensures IsDigits(payload + [c]) && (Valid(payload + [c]) <==> c == check) {
      LastDigit(payload, c);
      Complement(sum, c);
    }
  }

  // ---- digits and known numbers ----

  /** Of one more character, its digit counts if it is one, and it counts as written. */
  lemma {:induction false} DigitsSnoc(s: string, c: char)
    ensures if c in "0123456789"
            then exists d: nat :: d < 10 && c == "0123456789"[d] && DigitsOf(s + [c]) == DigitsOf(s) + [d]
            else DigitsOf(s + [c]) == DigitsOf(s)
  {
    if s == "" {
      assert (s + [c])[1..] == "";
      if '0' <= c <= '9' {
        var d := (c as int) - ('0' as int);
        assert "0123456789"[d] == c;
        assert DigitsOf(s + [c]) == DigitsOf(s) + [d];
      }
    } else {
      assert (s + [c])[1..] == s[1..] + [c];
      DigitsSnoc(s[1..], c);
    }
  }

  function Ones(n: nat): (ds: seq<nat>)
    ensures |ds| == n && IsDigits(ds)
  {
    if n == 0 then [] else [1] + Ones(n - 1)
  }

  lemma {:induction false} OnesSum(n: nat)
    ensures Sum(Ones(n)) == n + n / 2
  {
    if n > 0 {
      OnesSum(n - 1);
      assert Ones(n)[1..] == Ones(n - 1);
      assert Weighted(1, n - 1) == if n % 2 == 0 then 2 else 1;
      hide Weighted, Ones;
    }
  }

  /** The well-known test number 4111 1111 1111 1111 is valid, and no digit can be put before it but 0. */
  lemma {:induction false} KnownNumber(d: nat)
    requires d < 10
    ensures IsDigits([4] + Ones(15)) && Valid([4] + Ones(15))
    ensures IsDigits([d] + ([4] + Ones(15))) && (Valid([d] + ([4] + Ones(15))) <==> d == 0)
  {
    OnesSum(15);
    var known := [4] + Ones(15);
    assert known[1..] == Ones(15);
    assert Sum(known) == 30;
    assert ([d] + known)[1..] == known;
  }
}
