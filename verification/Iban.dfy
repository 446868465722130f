/** The check digits of IBANs: MOD 97-10 of ISO/IEC 7064, as ISO 13616-1 uses it. */
module Iban {

  type Digits = seq<nat>

  /** Reading further decimal digits behind a number. */
  function Read(n: nat, ds: Digits): nat
    decreases |ds|
  {
    if ds == [] then n else Read(n * 10 + ds[0], ds[1..])
  }

  lemma {:induction false} ReadConcat(n: nat, a: Digits, b: Digits)
    ensures Read(n, a + b) == Read(Read(n, a), b)
    decreases |a|
  {
    if a == [] {
      assert a + b == b;
    } else {
      assert (a + b)[1..] == a[1..] + b;
      ReadConcat(n * 10 + a[0], a[1..], b);
    }
  }

  lemma {:induction false} Shifted(x: int, y: int, m: int)
    requires x == y + 97 * m
    ensures x % 97 == y % 97
  {
  }

  /** Multiplying by 10 loses nothing modulo 97, because 10 * 68 == 7 * 97 + 1. */
  lemma {:induction false} TenInvertible(x: int, y: int)
    ensures (10 * x) % 97 == (10 * y) % 97 <==> x % 97 == y % 97
  {
    if (10 * x) % 97 == (10 * y) % 97 {
      var q := (10 * x) / 97 - (10 * y) / 97;
      assert 10 * (x - y) == 97 * q;
      Shifted(x, y, 68 * q - 7 * (x - y));
    }
    if x % 97 == y % 97 {
      Shifted(10 * x, 10 * y, 10 * (x / 97 - y / 97));
    }
  }

  lemma {:induction false} SameDigitBehind(m: nat, n: nat, d: nat)
    ensures (m * 10 + d) % 97 == (n * 10 + d) % 97 <==> m % 97 == n % 97
  {
    TenInvertible(m, n);
    if (m * 10 + d) % 97 == (n * 10 + d) % 97 {
      Shifted(10 * m, 10 * n, (m * 10 + d) / 97 - (n * 10 + d) / 97);
    }
    if (10 * m) % 97 == (10 * n) % 97 {
      Shifted(m * 10 + d, n * 10 + d, (10 * m) / 97 - (10 * n) / 97);
    }
  }

  /** Numbers congruent modulo 97, and no others, stay congruent when the same digits follow. */
  lemma {:induction false} ReadCongruent(m: nat, n: nat, ds: Digits)
    ensures Read(m, ds) % 97 == Read(n, ds) % 97 <==> m % 97 == n % 97
    decreases |ds|
  {
    if ds != [] {
      var d := ds[0];
      ReadCongruent(m * 10 + d, n * 10 + d, ds[1..]);
      SameDigitBehind(m, n, d);
    }
  }

  /** str(n). */
  function Decimal(n: nat): Digits {
    if n < 10 then [n] else Decimal(n / 10) + [n % 10]
  }

  lemma {:induction false} ReadDecimal(n: nat)
    ensures Read(0, Decimal(n)) == n
  {
    if n >= 10 {
      ReadDecimal(n / 10);
      ReadConcat(0, Decimal(n / 10), [n % 10]);
    }
  }

  // ---- characters, ASCII only ----

  predicate IsDigit(c: char) {
    '0' <= c <= '9'
  }

  predicate IsUpper(c: char) {
    'A' <= c <= 'Z'
  }

  function Upper(c: char): char {
    if 'a' <= c <= 'z' then ((c as int) - ('a' as int) + ('A' as int)) as char else c
  }

  /** replace(" ", "").upper(). */
  function Normalize(s: string): string {
    if s == "" then ""
    else if s[0] == ' ' then Normalize(s[1..])
    else [Upper(s[0])] + Normalize(s[1..])
  }

  function Number(c: char): nat
    requires IsDigit(c) || IsUpper(c)
  {
    if IsDigit(c) then (c as int) - ('0' as int) else (c as int) - ('A' as int) + 10
  }

  /** A letter stands for two digits. */
  function Convert(c: char): Digits
    requires IsDigit(c) || IsUpper(c)
  {
    Decimal(Number(c))
  }

  predicate Alphanumeric(s: string) {
    forall i :: 0 <= i < |s| ==> IsDigit(s[i]) || IsUpper(s[i])
  }

  function Expand(s: string): Digits
    requires Alphanumeric(s)
  {
    if s == "" then [] else Convert(s[0]) + Expand(s[1..])
  }

  function Rearranged(iban: string): string
    requires |iban| >= 4
  {
    iban[4..] + iban[..4]
  }

  /** The definition: the whole expanded number is 1 modulo 97. */
  predicate Valid(iban: string) {
    && 15 <= |iban| <= 34
    && Alphanumeric(Rearranged(iban))
    && Read(0, Expand(Rearranged(iban))) % 97 == 1
  }

  lemma {:induction false} ExpandSnoc(s: string, c: char)
    requires Alphanumeric(s) && (IsDigit(c) || IsUpper(c))
    ensures Alphanumeric(s + [c]) && Expand(s + [c]) == Expand(s) + Convert(c)
  {
    ExpandConcat(s, [c]);
    assert [c][1..] == "";
  }

  lemma {:induction false} ExpandConcat(a: string, b: string)
    requires Alphanumeric(a) && Alphanumeric(b)
    ensures Alphanumeric(a + b) && Expand(a + b) == Expand(a) + Expand(b)
  {
    if a == "" {
      assert a + b == b;
    } else {
      assert (a + b)[1..] == a[1..] + b;
      ExpandConcat(a[1..], b);
    }
  }

  lemma {:induction false} ReadNothing(ds: Digits)
    ensures Read(0, ds[..0]) == 0
  {
  }

  /** One round of the loop: the remainder's own digits stand for all the digits before. */
  lemma {:induction false} NextChunk(converted: Digits, i: nat, next: nat, remainder: nat)
    requires i <= next <= |converted| && remainder == Read(0, converted[..i]) % 97
    ensures Read(0, Decimal(remainder) + converted[i..next]) % 97 == Read(0, converted[..next]) % 97
  {
    var chunk := converted[i..next];
    ReadConcat(0, Decimal(remainder), chunk);
    ReadDecimal(remainder);
    ReadCongruent(remainder, Read(0, converted[..i]), chunk);
    ReadConcat(0, converted[..i], chunk);
    assert converted[..next] == converted[..i] + chunk;
  }

  /** content_inspector_service._iban_mod97_check. */
  method Mod97Check(text: string) returns (ok: bool)
    ensures ok == Valid(Normalize(text))
  {
    var iban := Normalize(text);
    if |iban| < 15 || |iban| > 34 {
      return false;
    }
    var rearranged := iban[4..] + iban[..4];
    var converted: Digits := [];
    for i := 0 to |rearranged|
      invariant Alphanumeric(rearranged[..i]) && converted == Expand(rearranged[..i])
    {
      var c := rearranged[i];
      assert rearranged[..i + 1] == rearranged[..i] + [c];
      if IsDigit(c) || IsUpper(c) {
        ExpandSnoc(rearranged[..i], c);
        converted := converted + Convert(c);
      } else {
        return false;
      }
    }
    assert rearranged[..|rearranged|] == rearranged;
    hide Read, Decimal, Expand, Alphanumeric;
    assert Valid(iban) <==> Read(0, converted) % 97 == 1;
    var remainder: nat := 0;
    var i := 0;
    ReadNothing(converted);
    while i < |converted|
      invariant 0 <= i <= |converted|
      invariant remainder == Read(0, converted[..i]) % 97
    {
      var next := if i + 9 < |converted| then i + 9 else |converted|;
      NextChunk(converted, i, next, remainder);
      remainder := Read(0, Decimal(remainder) + converted[i..next]) % 97;
      i := next;
    }
    assert converted[..|converted|] == converted;
    ok := remainder == 1;
  }

  // ---- error detection ----

  lemma {:induction false} ConvertDigits(n: nat, c: char)
    requires IsDigit(c) || IsUpper(c)
    ensures Read(n, Convert(c)) == (if IsDigit(c) then n * 10 else n * 100) + Number(c)
  {
    var v := Number(c);
    if v >= 10 {
      assert Decimal(v / 10) == [v / 10];
      assert Decimal(v) == [v / 10, v % 10];
      assert Decimal(v)[1..] == [v % 10];
      assert Read(n, Decimal(v)) == Read(n * 10 + v / 10, [v % 10]);
    }
  }

  /** The remainder of a string around a part that is exchanged: equal for both parts exactly if the
      parts agree behind the common front. */
  lemma {:induction false} Around(front: string, x: string, y: string, back: string)
    requires Alphanumeric(front) && Alphanumeric(x) && Alphanumeric(y) && Alphanumeric(back)
    ensures Alphanumeric(front + x + back) && Alphanumeric(front + y + back)
    ensures var n := Read(0, Expand(front));
            Read(0, Expand(front + x + back)) % 97 == Read(0, Expand(front + y + back)) % 97
            <==> Read(n, Expand(x)) % 97 == Read(n, Expand(y)) % 97
  {
    var n := Read(0, Expand(front));
    ExpandConcat(front, x);
    ExpandConcat(front + x, back);
    ExpandConcat(front, y);
    ExpandConcat(front + y, back);
    ReadConcat(0, Expand(front), Expand(x));
    ReadConcat(0, Expand(front) + Expand(x), Expand(back));
    ReadConcat(0, Expand(front), Expand(y));
    ReadConcat(0, Expand(front) + Expand(y), Expand(back));
    ReadCongruent(Read(n, Expand(x)), Read(n, Expand(y)), Expand(back));
  }

  lemma {:induction false} ReadOne(n: nat, c: char)
    requires IsDigit(c) || IsUpper(c)
    ensures Alphanumeric([c])
    ensures Read(n, Expand([c])) == (if IsDigit(c) then n * 10 else n * 100) + Number(c)
  {
    ConvertDigits(n, c);
    assert [c][1..] == "";
    assert Expand([c]) == Convert(c);
  }

  lemma {:induction false} ReadTwo(n: nat, c: char, d: char)
    requires (IsDigit(c) || IsUpper(c)) && (IsDigit(d) || IsUpper(d))
    ensures Alphanumeric([c, d])
    ensures var m := (if IsDigit(c) then n * 10 else n * 100) + Number(c);
            Read(n, Expand([c, d])) == (if IsDigit(d) then m * 10 else m * 100) + Number(d)
  {
    ReadOne(n, c);
    ReadOne(Read(n, Expand([c])), d);
    ExpandConcat([c], [d]);
    assert [c] + [d] == [c, d];
    ReadConcat(n, Expand([c]), Expand([d]));
  }

  /** Different numbers of the same width leave different remainders. */
  lemma {:induction false} SameWidthDiffers(n: nat, c: char, d: char)
    requires (IsDigit(c) && IsDigit(d)) || (IsUpper(c) && IsUpper(d))
    ensures Read(n, Expand([c])) % 97 == Read(n, Expand([d])) % 97 <==> c == d
  {
    ReadOne(n, c);
    ReadOne(n, d);
    Offset(if IsDigit(c) then n * 10 else n * 100, Number(c), Number(d));
  }

  lemma {:induction false} Offset(m: nat, a: nat, b: nat)
    requires a < 97 && b < 97
    ensures (m + a) % 97 == (m + b) % 97 <==> a == b
  {
  }

  /** The pairs whose exchange leaves the remainder alone. */
  predicate Blind(c: char, d: char) {
    || (c == '1' && d == 'B') || (c == '2' && d == 'M') || (c == '3' && d == 'X')
    || (c == 'B' && d == '1') || (c == 'M' && d == '2') || (c == 'X' && d == '3')
  }

  lemma {:induction false} Difference(x: int, y: int, d: int, m: int)
    requires x - y == d + 97 * m && -97 < d < 97
    ensures x % 97 == y % 97 <==> d == 0
  {
    if x % 97 == y % 97 {
      assert d == 97 * (x / 97 - y / 97 - m);
    } else if d == 0 {
      Shifted(x, y, m);
    }
  }

  /** 9 is invertible modulo 97, because 9 * 54 == 5 * 97 + 1. */
  lemma {:induction false} NineTimes(x: int, y: int, k: int)
    requires x - y == 9 * k && -97 < k < 97
    ensures x % 97 == y % 97 <==> k == 0
  {
    if x % 97 == y % 97 {
      var q := x / 97 - y / 97;
      assert 9 * k == 97 * q;
      Shifted(k, 0, 54 * q - 5 * k);
      Difference(k, 0, k, 0);
    }
  }

  lemma {:induction false} ExchangeDigits(n: nat, a: nat, b: nat)
    requires a < 10 && b < 10
    ensures ((n * 10 + a) * 10 + b) % 97 == ((n * 10 + b) * 10 + a) % 97 <==> a == b
  {
    NineTimes((n * 10 + a) * 10 + b, (n * 10 + b) * 10 + a, a - b);
  }

  lemma {:induction false} ExchangeLetters(n: nat, a: nat, b: nat)
    requires 10 <= a < 36 && 10 <= b < 36
    ensures ((n * 100 + a) * 100 + b) % 97 == ((n * 100 + b) * 100 + a) % 97 <==> a == b
  {
    Difference((n * 100 + a) * 100 + b, (n * 100 + b) * 100 + a, 2 * (a - b), a - b);
  }

  lemma {:induction false} ExchangeMixed(n: nat, a: nat, b: nat)
    requires a < 10 && 10 <= b < 36
    ensures ((n * 10 + a) * 100 + b) % 97 == ((n * 100 + b) * 10 + a) % 97 <==> 11 * a == b
  {
    NineTimes((n * 10 + a) * 100 + b, (n * 100 + b) * 10 + a, 11 * a - b);
  }

  lemma {:induction false} SameKindDiffers(n: nat, c: char, d: char)
    requires (IsDigit(c) && IsDigit(d)) || (IsUpper(c) && IsUpper(d))
    ensures Alphanumeric([c, d]) && Alphanumeric([d, c])
    ensures Read(n, Expand([c, d])) % 97 == Read(n, Expand([d, c])) % 97 <==> c == d
  {
    ReadTwo(n, c, d);
    ReadTwo(n, d, c);
    hide Read, Expand;
    if IsDigit(c) {
      ExchangeDigits(n, Number(c), Number(d));
    } else {
      ExchangeLetters(n, Number(c), Number(d));
    }
  }

  lemma {:induction false} MixedDiffers(n: nat, digit: char, letter: char)
    requires IsDigit(digit) && IsUpper(letter)
    ensures Alphanumeric([digit, letter]) && Alphanumeric([letter, digit])
    ensures Read(n, Expand([digit, letter])) % 97 == Read(n, Expand([letter, digit])) % 97 <==> Blind(digit, letter)
  {
    ReadTwo(n, digit, letter);
    ReadTwo(n, letter, digit);
    hide Read, Expand;
    ExchangeMixed(n, Number(digit), Number(letter));
  }

  lemma {:induction false} ExchangeDiffers(n: nat, c: char, d: char)
    requires (IsDigit(c) || IsUpper(c)) && (IsDigit(d) || IsUpper(d))
    ensures Alphanumeric([c, d]) && Alphanumeric([d, c])
    ensures Read(n, Expand([c, d])) % 97 == Read(n, Expand([d, c])) % 97 <==> c == d || Blind(c, d)
  {
    hide Read, Expand;
    if IsDigit(c) == IsDigit(d) {
      SameKindDiffers(n, c, d);
    } else if IsDigit(c) {
      MixedDiffers(n, c, d);
    } else {
      MixedDiffers(n, d, c);
    }
  }

  /** Where position i of an IBAN stands in the rearranged string. */
  function Place(iban: string, i: nat): nat
    requires 4 <= |iban| && i < |iban|
  {
    if i < 4 then |iban| - 4 + i else i - 4
  }

  lemma {:induction false} Parts(front: string, middle: string, back: string)
    requires Alphanumeric(front + middle + back)
    ensures Alphanumeric(front) && Alphanumeric(middle) && Alphanumeric(back)
  {
    var s := front + middle + back;
    forall i | 0 <= i < |front| ensures IsDigit(front[i]) || IsUpper(front[i]) {
      assert front[i] == s[i];
    }
    forall i | 0 <= i < |middle| ensures IsDigit(middle[i]) || IsUpper(middle[i]) {
      assert middle[i] == s[|front| + i];
    }
    forall i | 0 <= i < |back| ensures IsDigit(back[i]) || IsUpper(back[i]) {
      assert back[i] == s[|front| + |middle| + i];
    }
  }

  lemma {:induction false} ChangedString(s: string, p: nat, c: char)
    requires p < |s|
    ensures s == s[..p] + [s[p]] + s[p + 1..] && s[p := c] == s[..p] + [c] + s[p + 1..]
  {
  }

  lemma {:induction false} RearrangedChange(iban: string, i: nat, c: char)
    requires 4 <= |iban| && i < |iban|
    ensures Rearranged(iban)[Place(iban, i)] == iban[i]
    ensures Rearranged(iban[i := c]) == Rearranged(iban)[Place(iban, i) := c]
  {
  }

  /** One character of a valid IBAN changed to another of its kind: never valid again. */
  lemma {:induction false} OneChangeDetected(iban: string, i: nat, c: char)
    requires Valid(iban) && i < |iban| && c != iban[i]
    requires (IsDigit(c) && IsDigit(iban[i])) || (IsUpper(c) && IsUpper(iban[i]))
    ensures !Valid(iban[i := c])
  {
    var s, p := Rearranged(iban), Place(iban, i);
    var front, back := s[..p], s[p + 1..];
    RearrangedChange(iban, i, c);
    ChangedString(s, p, c);
    hide Rearranged, Place, Read, Expand;
    Parts(front, [iban[i]], back);
    Around(front, [iban[i]], [c], back);
    SameWidthDiffers(Read(0, Expand(front)), iban[i], c);
  }

  lemma {:induction false} ExchangedString(s: string, p: nat)
    requires p + 1 < |s|
    ensures s == s[..p] + [s[p], s[p + 1]] + s[p + 2..]
    ensures s[p := s[p + 1]][p + 1 := s[p]] == s[..p] + [s[p + 1], s[p]] + s[p + 2..]
  {
  }

  /** Two neighbours in the rearranged string of a valid IBAN exchanged: valid again exactly if they
      are equal or one of three blind pairs of a digit and a letter. */
  lemma {:induction false} ExchangeDetected(iban: string, other: string, p: nat)
    requires Valid(iban) && |other| == |iban| && p + 1 < |iban|
    requires var s := Rearranged(iban); Rearranged(other) == s[p := s[p + 1]][p + 1 := s[p]]
    ensures var s := Rearranged(iban); Valid(other) <==> s[p] == s[p + 1] || Blind(s[p], s[p + 1])
  {
    var s := Rearranged(iban);
    var front, back, c, d := s[..p], s[p + 2..], s[p], s[p + 1];
    ExchangedString(s, p);
    Parts(front, [c, d], back);
    hide Rearranged, Read, Expand, Blind;
    ExchangeDiffers(Read(0, Expand(front)), c, d);
    Around(front, [c, d], [d, c], back);
  }

  /** In particular neighbours of the IBAN itself, unless they stand on both sides of its first four
      characters' end. */
  lemma {:induction false} NeighboursDetected(iban: string, i: nat)
    requires Valid(iban) && i + 1 < |iban| && i != 3
    ensures Valid(iban[i := iban[i + 1]][i + 1 := iban[i]])
            <==> iban[i] == iban[i + 1] || Blind(iban[i], iban[i + 1])
  {
    var other := iban[i := iban[i + 1]][i + 1 := iban[i]];
    var s, p := Rearranged(iban), Place(iban, i);
    assert s[p] == iban[i] && s[p + 1] == iban[i + 1];
    assert Rearranged(other) == s[p := s[p + 1]][p + 1 := s[p]];
    ExchangeDetected(iban, other, p);
  }

  // ---- characters of one kind, at any distance ----

  function Power(k: nat): nat {
    if k == 0 then 1 else 10 * Power(k - 1)
  }

  lemma {:induction false} ReadShifts(n: nat, ds: Digits)
    ensures Read(n, ds) == n * Power(|ds|) + Read(0, ds)
    decreases |ds|
  {
    if ds != [] {
      ReadShifts(n * 10 + ds[0], ds[1..]);
      ReadShifts(ds[0], ds[1..]);
      Distribute(n, ds[0], Power(|ds| - 1));
    }
  }

  lemma {:induction false} Distribute(n: nat, d: nat, power: nat)
    ensures (n * 10 + d) * power == n * (10 * power) + d * power
  {
  }

  lemma {:induction false} PowerAdd(a: nat, b: nat)
    ensures Power(a + b) == Power(a) * Power(b)
  {
    if a > 0 {
      PowerAdd(a - 1, b);
      Associate(10, Power(a - 1), Power(b));
    }
  }

  lemma {:induction false} Associate(x: int, y: int, z: int)
    ensures x * (y * z) == (x * y) * z
  {
  }

  lemma {:induction false} ProductResidue(x: nat, y: nat)
    ensures (x * y) % 97 == ((x % 97) * (y % 97)) % 97
  {
    var i, j, u, v := x / 97, y / 97, x % 97, y % 97;
    assert x == 97 * i + u && y == 97 * j + v;
    Expansion(i, j, u, v);
    Shifted(x * y, u * v, 97 * i * j + i * v + j * u);
  }

  lemma {:induction false} Expansion(i: nat, j: nat, u: nat, v: nat)
    ensures (97 * i + u) * (97 * j + v) == u * v + 97 * (97 * i * j + i * v + j * u)
  {
  }

  lemma {:induction false} AddResidue(a: nat, b: nat, v: nat, w: nat)
    requires Power(a) % 97 == v && Power(b) % 97 == w
    ensures Power(a + b) % 97 == (v * w) % 97
  {
    PowerAdd(a, b);
    ProductResidue(Power(a), Power(b));
  }

  lemma {:induction false} OneMore(k: int, times: int)
    ensures k * times == k * (times - 1) + k
  {
  }

  lemma {:induction false} OneAgain(k: nat, times: nat)
    requires Power(k) % 97 == 1
    ensures Power(k * times) % 97 == 1
  {
    hide Power;
    if times == 0 {
      PowerZero();
    } else {
      OneAgain(k, times - 1);
      AddResidue(k * (times - 1), k, 1, 1);
      OneMore(k, times);
    }
  }

  lemma {:induction false} Doublings()
    ensures Power(16) % 97 == 62
  {
    assert Power(1) == 10 * Power(0);
    hide Power;
    AddResidue(1, 1, 10, 10);
    AddResidue(2, 2, 3, 3);
    AddResidue(4, 4, 9, 9);
    AddResidue(8, 8, 81, 81);
  }

  lemma {:induction false} LargePowers()
    ensures Power(32) % 97 == 61 && Power(64) % 97 == 35 && Power(48) % 97 == 96
  {
    hide Power;
    Doublings();
    AddResidue(16, 16, 62, 62);
    AddResidue(32, 32, 61, 61);
    AddResidue(32, 16, 61, 62);
  }

  /** The 48th power of 10 is -1, and so are its odd powers. */
  lemma {:induction false} OddPowers(u: nat)
    ensures Power(48 * u) % 97 == if u % 2 == 1 then 96 else 1
  {
    hide Power;
    LargePowers();
    if u == 0 {
      assert Power(0) == 1 by { PowerZero(); }
    } else {
      OddPowers(u - 1);
      AddResidue(48 * (u - 1), 48, if u % 2 == 1 then 1 else 96, 96);
    }
  }

  lemma {:induction false} PowerZero()
    ensures Power(0) == 1
  {
  }

  lemma {:induction false} OddMultiple(k: nat, times: nat, u: nat)
    requires k * times == 48 * u && u % 2 == 1
    ensures Power(k) % 97 != 1
  {
    OddPowers(u);
    if Power(k) % 97 == 1 {
      OneAgain(k, times);
    }
  }

  /** Modulo 97 the powers of 10 come back to 1 only at the 96th: below, a multiple of the exponent is an
      odd multiple of 48, or it is 32 or 64. */
  lemma {:induction false} PowerIsNotOne(k: nat)
    requires 0 < k < 96
    ensures Power(k) % 97 != 1
  {
    hide Power;
    LargePowers();
    if k % 2 == 1 {
      OddMultiple(k, 48, k);
    } else if k % 4 == 2 {
      OddMultiple(k, 24, k / 2);
    } else if k % 8 == 4 {
      OddMultiple(k, 12, k / 4);
    } else if k % 16 == 8 {
      OddMultiple(k, 6, k / 8);
    } else if k % 32 == 16 {
      OddMultiple(k, 3, k / 16);
    }
  }

  lemma {:induction false} NoDivisor(d: nat)
    requires 2 <= d < 97
    ensures 97 % d != 0
  {
    assert 97 % 2 == 1 && 97 % 3 == 1 && 97 % 4 == 1 && 97 % 5 == 2;
    assert 97 % 6 == 1 && 97 % 7 == 6 && 97 % 8 == 1 && 97 % 9 == 7;
    if 9 < d {
      NoFactors(97 / d, d);
    }
  }

  lemma {:induction false} NoFactors(c: nat, d: nat)
    requires 9 < d < 97
    ensures c * d != 97
  {
  }

  /** 97 is prime: it divides a product only if it divides one of the factors. */
  lemma {:induction false} PrimeFactor(d: nat, x: int, q: int)
    requires 0 < d < 97 && d * x == 97 * q
    ensures x % 97 == 0
    decreases d
  {
    if d == 1 {
      Shifted(x, 0, q);
    } else {
      NoDivisor(d);
      var c := 97 / d;
      Remainder(d, c, x, q);
      PrimeFactor(97 % d, x, x - c * q);
    }
  }

  lemma {:induction false} Remainder(d: nat, c: nat, x: int, q: int)
    requires d > 0 && c == 97 / d && d * x == 97 * q
    ensures (97 % d) * x == 97 * (x - c * q)
  {
    assert 97 % d == 97 - c * d;
    Scaled(c, d, x);
    Scaled(c, 97, q);
  }

  lemma {:induction false} Scaled(c: nat, d: nat, x: int)
    ensures (97 - c * d) * x == 97 * x - c * (d * x) && c * (d * x) == d * (c * x)
  {
  }

  /** Two values around a middle part, exchanged: the number changes by a multiple of their difference. */
  lemma {:induction false} FarDifference(n: nat, middle: Digits, wide: nat, a: nat, b: nat)
    ensures Read(n * wide + a, middle) * wide + b - (Read(n * wide + b, middle) * wide + a)
            == (a - b) * (Power(|middle|) * wide - 1)
  {
    ReadShifts(n * wide + a, middle);
    ReadShifts(n * wide + b, middle);
    Expanded(n * wide, a, b, Power(|middle|), Read(0, middle), wide);
  }

  lemma {:induction false} Expanded(m: int, a: int, b: int, power: int, rest: int, wide: int)
    ensures ((m + a) * power + rest) * wide + b - (((m + b) * power + rest) * wide + a) == (a - b) * (power * wide - 1)
  {
    assert ((m + a) * power + rest) - ((m + b) * power + rest) == (a - b) * power;
    assert ((a - b) * power) * wide == (a - b) * (power * wide);
  }

  lemma {:induction false} FarDiffers(n: nat, middle: Digits, wide: nat, a: nat, b: nat)
    requires (wide == 10 || wide == 100) && |middle| <= 93 && a < 36 && b < 36
    ensures (Read(n * wide + a, middle) * wide + b) % 97 == (Read(n * wide + b, middle) * wide + a) % 97 <==> a == b
  {
    StepNotDivided(|middle|, wide);
    FarDifference(n, middle, wide, a, b);
    hide Read, Power;
    var difference: int, step: int := a - b, Power(|middle|) * wide - 1;
    Multiple(Read(n * wide + a, middle) * wide + b, Read(n * wide + b, middle) * wide + a, difference, step);
  }

  lemma {:induction false} StepNotDivided(k: nat, wide: nat)
    requires (wide == 10 || wide == 100) && k <= 93
    ensures (Power(k) * wide - 1) % 97 != 0
  {
    var m := if wide == 10 then k + 1 else k + 2;
    PowerWide(k);
    PowerIsNotOne(m);
    assert Power(k) * wide == Power(m) by {
      if wide == 10 {
        assert Power(k) * wide == Power(k) * 10;
      } else {
        assert Power(k) * wide == Power(k) * 100;
      }
    }
    hide Power;
    OneLess(Power(m));
  }

  lemma {:induction false} OneLess(x: int)
    ensures (x - 1) % 97 == 0 <==> x % 97 == 1
  {
  }

  /** Two numbers that differ by a multiple of d, in steps that 97 does not divide. */
  lemma {:induction false} Multiple(x: int, y: int, d: int, step: int)
    requires x - y == d * step && -97 < d < 97 && step % 97 != 0
    ensures x % 97 == y % 97 <==> d == 0
  {
    if d != 0 && x % 97 == y % 97 {
      var q := x / 97 - y / 97;
      assert x - y == 97 * q;
      if d > 0 {
        PrimeFactor(d, step, q);
      } else {
        PrimeFactor(-d, step, -q);
      }
    }
  }

  lemma {:induction false} PowerWide(k: nat)
    ensures Power(k) * 10 == Power(k + 1) && Power(k) * 100 == Power(k + 2)
  {
    assert Power(k + 2) == 10 * Power(k + 1);
  }

  lemma {:induction false} ExpandedLength(s: string)
    requires Alphanumeric(s)
    ensures |Expand(s)| <= 2 * |s|
  {
    if s != "" {
      ExpandedLength(s[1..]);
      assert Number(s[0]) < 100 && |Decimal(Number(s[0]) / 10)| == 1;
    }
  }

  lemma {:induction false} ReadAround(n: nat, c: char, middle: string, d: char)
    requires Alphanumeric(middle) && ((IsDigit(c) && IsDigit(d)) || (IsUpper(c) && IsUpper(d)))
    ensures Alphanumeric([c] + middle + [d])
    ensures var wide := if IsDigit(c) then 10 else 100;
            Read(n, Expand([c] + middle + [d])) == Read(n * wide + Number(c), Expand(middle)) * wide + Number(d)
  {
    ReadOne(n, c);
    ExpandConcat([c], middle);
    ReadConcat(n, Expand([c]), Expand(middle));
    ReadOne(Read(n, Expand([c] + middle)), d);
    ExpandConcat([c] + middle, [d]);
    ReadConcat(n, Expand([c] + middle), Expand([d]));
  }

  lemma {:induction false} FarExchange(front: string, c: char, middle: string, d: char, back: string)
    requires Alphanumeric(front + ([c] + middle + [d]) + back) && |middle| <= 32
    requires (IsDigit(c) && IsDigit(d)) || (IsUpper(c) && IsUpper(d))
    ensures Alphanumeric(front + ([d] + middle + [c]) + back)
    ensures Read(0, Expand(front + ([c] + middle + [d]) + back)) % 97
            == Read(0, Expand(front + ([d] + middle + [c]) + back)) % 97
            <==> c == d
  {
    hide Read, Expand;
    Parts(front, [c] + middle + [d], back);
    Parts([c], middle, [d]);
    var n := Read(0, Expand(front));
    ReadAround(n, c, middle, d);
    ReadAround(n, d, middle, c);
    Around(front, [c] + middle + [d], [d] + middle + [c], back);
    ExpandedLength(middle);
    FarDiffers(n, Expand(middle), if IsDigit(c) then 10 else 100, Number(c), Number(d));
  }

  lemma {:induction false} FarString(s: string, p: nat, q: nat)
    requires p < q < |s|
    ensures s == s[..p] + ([s[p]] + s[p + 1..q] + [s[q]]) + s[q + 1..]
    ensures s[p := s[q]][q := s[p]] == s[..p] + ([s[q]] + s[p + 1..q] + [s[p]]) + s[q + 1..]
    ensures s[p := s[q]][q := s[p]] == s[q := s[p]][p := s[q]]
  {
  }

  lemma {:induction false} FarInRearranged(iban: string, other: string, p: nat, q: nat)
    requires Valid(iban) && |other| == |iban| && p < q < |iban|
    requires var s := Rearranged(iban);
             && ((IsDigit(s[p]) && IsDigit(s[q])) || (IsUpper(s[p]) && IsUpper(s[q])))
             && Rearranged(other) == s[p := s[q]][q := s[p]]
    ensures var s := Rearranged(iban); Valid(other) <==> s[p] == s[q]
  {
    var s := Rearranged(iban);
    FarString(s, p, q);
    hide Rearranged, Read, Expand;
    FarExchange(s[..p], s[p], s[p + 1..q], s[q], s[q + 1..]);
  }

  lemma {:induction false} RearrangedExchange(iban: string, i: nat, j: nat)
    requires 4 <= |iban| && i < j < |iban|
    ensures var s, p, q := Rearranged(iban), Place(iban, i), Place(iban, j);
            && s[p] == iban[i] && s[q] == iban[j] && p != q
            && Rearranged(iban[i := iban[j]][j := iban[i]]) == s[p := s[q]][q := s[p]]
  {
    var once := iban[i := iban[j]];
    RearrangedChange(iban, i, iban[j]);
    RearrangedChange(iban, j, iban[j]);
    RearrangedChange(once, j, iban[i]);
  }

  /** Two digits, or two letters, of a valid IBAN exchanged, at whatever distance: valid again exactly if
      they are equal. */
  lemma {:induction false} FarExchangeDetected(iban: string, i: nat, j: nat)
    requires Valid(iban) && i < j < |iban|
    requires (IsDigit(iban[i]) && IsDigit(iban[j])) || (IsUpper(iban[i]) && IsUpper(iban[j]))
    ensures Valid(iban[i := iban[j]][j := iban[i]]) <==> iban[i] == iban[j]
  {
    var other := iban[i := iban[j]][j := iban[i]];
    var p, q := Place(iban, i), Place(iban, j);
    RearrangedExchange(iban, i, j);
    var s := Rearranged(iban);
    if p < q {
      FarInRearranged(iban, other, p, q);
    } else {
      FarString(s, q, p);
      FarInRearranged(iban, other, q, p);
    }
  }

  // ---- a known number ----

  /** Reading the characters of a string one by one. */
  function ReadChars(n: nat, s: string): nat
    requires Alphanumeric(s)
    decreases |s|
  {
    if s == "" then n else ReadChars((if IsDigit(s[0]) then n * 10 else n * 100) + Number(s[0]), s[1..])
  }

  lemma {:induction false} ReadCharsReads(n: nat, s: string)
    requires Alphanumeric(s)
    ensures ReadChars(n, s) == Read(n, Expand(s))
    decreases |s|
  {
    if s != "" {
      assert s == [s[0]] + s[1..];
      ReadOne(n, s[0]);
      ReadCharsReads(Read(n, Expand([s[0]])), s[1..]);
      ExpandConcat([s[0]], s[1..]);
      ReadConcat(n, Expand([s[0]]), Expand(s[1..]));
    }
  }

  /** The check written out: 15 to 34 digits and capital letters, and the number they spell, the first four
      behind the others, is 1 modulo 97. */
  lemma {:induction false} ValidExactly(iban: string)
    ensures Valid(iban)
            <==> && 15 <= |iban| <= 34
                 && (forall i :: 0 <= i < |iban| ==> '0' <= iban[i] <= '9' || 'A' <= iban[i] <= 'Z')
                 && var s := iban[4..] + iban[..4]; Alphanumeric(s) && ReadChars(0, s) % 97 == 1
  {
    if |iban| >= 15 {
      var s := iban[4..] + iban[..4];
      assert forall i :: 0 <= i < |iban| ==> iban[i] == s[Place(iban, i)];
      assert forall j :: 0 <= j < |s| ==> s[j] == iban[if j < |iban| - 4 then j + 4 else j - (|iban| - 4)];
      if Alphanumeric(s) {
        ReadCharsReads(0, s);
      }
    }
  }

  lemma {:induction false} ReadNext(n: nat, m: nat, a: string, b: string)
    requires Alphanumeric(a) && Alphanumeric(b) && ReadChars(n, a) == m
    ensures Alphanumeric(a + b) && ReadChars(n, a + b) == ReadChars(m, b)
  {
    ExpandConcat(a, b);
    ReadConcat(n, Expand(a), Expand(b));
    ReadCharsReads(n, a);
    ReadCharsReads(m, b);
    ReadCharsReads(n, a + b);
  }

  lemma {:induction false} NormalizeConcat(a: string, b: string)
    ensures Normalize(a + b) == Normalize(a) + Normalize(b)
  {
    if a == "" {
      assert a + b == b;
    } else {
      assert (a + b)[1..] == a[1..] + b;
      NormalizeConcat(a[1..], b);
    }
  }

  const SMALL := "abcdefghijklmnopqrstuvwxyz"
  const CAPITALS := "ABCDEFGHIJKLMNOPQRSTUVWXYZ"

  /** Spaces are dropped, small letters become capitals, and all else stays. */
  lemma {:induction false} NormalizeExactly(s: string, c: char)
    ensures Normalize(" ") == "" && (c !in SMALL && c != ' ' ==> Normalize([c]) == [c])
    ensures c in SMALL ==> exists i :: 0 <= i < 26 && SMALL[i] == c && Normalize([c]) == [CAPITALS[i]]
    ensures Normalize(s + [c]) == Normalize(s) + Normalize([c])
  {
    NormalizeConcat(s, [c]);
    assert [c][1..] == "" && " "[1..] == "";
    assert Normalize([c]) == if c == ' ' then "" else [Upper(c)];
    if 'a' <= c <= 'z' {
      var i := (c as int) - ('a' as int);
      CapitalOf(i);
    } else {
      NotSmall(c);
    }
  }

  lemma {:induction false} CapitalOf(i: nat)
    requires i < 26
    ensures SMALL[i] == (('a' as int) + i) as char && CAPITALS[i] == (('A' as int) + i) as char
  {
  }

  lemma {:induction false} NotSmall(c: char)
    requires !('a' <= c <= 'z')
    ensures c !in SMALL
  {
    forall i | 0 <= i < |SMALL| ensures SMALL[i] != c {
      CapitalOf(i);
    }
  }

  const KNOWN := "NO93" + "8601" + "1117" + "947"

  lemma {:induction false} KnownWritten()
    ensures Normalize("no93 " + "8601 " + "1117 " + "947") == KNOWN
  {
    NormalizeConcat("no93 " + "8601 " + "1117 ", "947");
    NormalizeConcat("no93 " + "8601 ", "1117 ");
    NormalizeConcat("no93 ", "8601 ");
    assert Normalize("no93 ") == "NO93" && Normalize("8601 ") == "8601";
    assert Normalize("1117 ") == "1117" && Normalize("947") == "947";
  }

  lemma {:induction false} KnownParts()
    ensures Alphanumeric("8601") && Alphanumeric("1117") && Alphanumeric("947") && Alphanumeric("NO93")
    ensures ReadChars(0, "8601") == 8601 && ReadChars(8601, "1117") == 86011117
    ensures ReadChars(86011117, "947") == 86011117947 && ReadChars(86011117947, "NO93") == 86011117947232493
  {
  }

  lemma {:induction false} KnownRead()
    ensures Alphanumeric("8601" + "1117" + "947" + "NO93")
    ensures Read(0, Expand("8601" + "1117" + "947" + "NO93")) == 86011117947232493
  {
    KnownParts();
    hide ReadChars, Read, Expand;
    ReadNext(0, 8601, "8601", "1117");
    ReadNext(0, 86011117, "8601" + "1117", "947");
    ReadNext(0, 86011117947, "8601" + "1117" + "947", "NO93");
    ReadCharsReads(0, "8601" + "1117" + "947" + "NO93");
  }

  /** An example of a Norwegian IBAN, as it may be written. */
  lemma {:induction false} KnownIban()
    ensures Valid(Normalize("no93 " + "8601 " + "1117 " + "947"))
  {
    KnownWritten();
    KnownRead();
    hide Normalize, Read, Expand;
    assert Rearranged(KNOWN) == "8601" + "1117" + "947" + "NO93";
  }
}
