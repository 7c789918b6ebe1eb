/** The check-digit validators behind card and identity numbers. */
module Checksums {

  predicate IsDigit(c: char) {
    '0' <= c <= '9'
  }

  function DigitOf(c: char): (d: int)
    requires IsDigit(c)
    ensures 0 <= d <= 9
  {
    c as int - '0' as int
  }

  /** The number is not part of a longer run of digits. */
  predicate Unflanked(content: string, start: nat, end: nat)
    requires start <= end <= |content|
  {
    !(start > 0 && IsDigit(content[start - 1])) && !(end < |content| && IsDigit(content[end]))
  }

  predicate AllDigits(s: string) {
    forall i :: 0 <= i < |s| ==> IsDigit(s[i])
  }

  // --- Luhn ---

  function DigitsOf(s: string): (ds: seq<int>)
    ensures forall i :: 0 <= i < |ds| ==> 0 <= ds[i] <= 9
    ensures |ds| <= |s|
  {
    if s == [] then []
    else DigitsOf(s[..|s| - 1]) + if IsDigit(s[|s| - 1]) then [DigitOf(s[|s| - 1])] else []
  }

  /** A digit's share: the digit, or the digit sum of its double. */
  function Share(d: int, double: bool): (r: int)
    requires 0 <= d <= 9
    ensures 0 <= r <= 9
  {
    if double then 2 * d / 10 + 2 * d % 10 else d
  }

  predicate Digits(ds: seq<int>) {
    forall i :: 0 <= i < |ds| ==> 0 <= ds[i] <= 9
  }

  /** The Luhn sum of Annex B of ISO/IEC 7812-1, doubling every second digit from the right; `double` says
      whether the rightmost is doubled. */
  function LuhnSum(ds: seq<int>, double: bool): int
    requires Digits(ds)
  {
    if ds == [] then 0
    else Share(ds[|ds| - 1], double) + LuhnSum(ds[..|ds| - 1], !double)
  }

  predicate LuhnAccepts(content: string, start: nat, end: nat)
    requires start <= end <= |content|
  {
    && Unflanked(content, start, end)
    && 13 <= |DigitsOf(content[start..end])| <= 19
    && LuhnSum(DigitsOf(content[start..end]), false) % 10 == 0
  }

  method ValidLuhn(content: string, start: nat, end: nat) returns (valid: bool)
    requires start <= end <= |content|
    ensures valid <==> LuhnAccepts(content, start, end)
  {
    if start > 0 && IsDigit(content[start - 1]) {
      return false;
    }
    if end < |content| && IsDigit(content[end]) {
      return false;
    }
    var digits := DigitsOf(content[start..end]);
    if |digits| < 13 || |digits| > 19 {
      return false;
    }
    hide Share;
    var sum, double, i := 0, false, |digits|;
    assert digits[..i] == digits;
    while i > 0
      invariant 0 <= i <= |digits|
      invariant sum + LuhnSum(digits[..i], double) == LuhnSum(digits, false)
    {
      i := i - 1;
      assert digits[..i + 1][..i] == digits[..i];
      ShareOfDouble(digits[i]);
      var x := if double then digits[i] * 2 else digits[i];
      if x > 9 {
        x := x - 9;
      }
      sum := sum + x;
      double := !double;
    }
    valid := sum % 10 == 0;
  }

  /** The first `n` digits added up from the left: a digit at an odd distance from the right end is doubled,
      less nine when that gives two figures, and any other counts as it is. */
  function PositionSum(ds: seq<int>, n: nat): int
    requires n <= |ds|
  {
    if n == 0 then 0
    else
      var d, odd := ds[n - 1], (|ds| - n) % 2 == 1;
      PositionSum(ds, n - 1) + if !odd then d else if d < 5 then d + d else d + d - 9
  }

  lemma {:induction false} LuhnByPosition(ds: seq<int>, n: nat)
    requires Digits(ds) && n <= |ds|
    ensures LuhnSum(ds[..n], (|ds| - n) % 2 == 1) == PositionSum(ds, n)
  {
    hide Share;
    if n > 0 {
      LuhnByPosition(ds, n - 1);
      ShareOfDouble(ds[n - 1]);
      assert ds[..n][..n - 1] == ds[..n - 1];
    }
  }

  /** A card number is accepted exactly when it stands alone, has thirteen to nineteen digits, and their sum by
      position, the rightmost digit plain, is a multiple of ten. */
  lemma {:induction false} LuhnAcceptsExactly(content: string, start: nat, end: nat)
    requires start <= end <= |content|
    ensures
      var ds := DigitsOf(content[start..end]);
      LuhnAccepts(content, start, end) <==>
      && (start == 0 || !('0' <= content[start - 1] <= '9')) && (end == |content| || !('0' <= content[end] <= '9'))
      && 13 <= |ds| <= 19 && PositionSum(ds, |ds|) % 10 == 0
  {
    var ds := DigitsOf(content[start..end]);
    LuhnByPosition(ds, |ds|);
    assert ds[..|ds|] == ds;
  }

  /** Whether the digit at `i` is doubled. */
  predicate Doubled(n: nat, i: nat, double: bool) {
    if (n - 1 - i) % 2 == 0 then double else !double
  }

  lemma {:induction false} LuhnChange(ds: seq<int>, i: nat, d: int, double: bool)
    requires Digits(ds) && i < |ds| && 0 <= d <= 9
    ensures LuhnSum(ds[i := d], double) - LuhnSum(ds, double) ==
            Share(d, Doubled(|ds|, i, double)) - Share(ds[i], Doubled(|ds|, i, double))
  {
    hide Share;
    var k := |ds| - 1;
    if i == k {
      assert ds[i := d][..k] == ds[..k];
    } else {
      LuhnChange(ds[..k], i, d, !double);
      assert ds[i := d][..k] == ds[..k][i := d];
    }
  }

  /** Luhn sees every change of one digit, at any length. */
  lemma {:induction false} LuhnSeesOneDigit(ds: seq<int>, i: nat, d: int, double: bool)
    requires Digits(ds) && i < |ds| && 0 <= d <= 9
    ensures LuhnSum(ds[i := d], double) % 10 == LuhnSum(ds, double) % 10 <==> d == ds[i]
  {
    hide LuhnSum, Share, Doubled;
    LuhnChange(ds, i, d, double);
    if d == ds[i] {
      assert ds[i := d] == ds;
    } else {
      var p := Doubled(|ds|, i, double);
      SharesDiffer(d, ds[i], p);
      SameMod(10, LuhnSum(ds, double), Share(d, p) - Share(ds[i], p));
    }
  }

  lemma SameMod(m: int, x: int, change: int)
    requires m == 10 || m == 11
    ensures (x + change) % m == x % m <==> change % m == 0
  {
  }

  lemma SharesDiffer(a: int, b: int, double: bool)
    requires 0 <= a <= 9 && 0 <= b <= 9 && a != b
    ensures Share(a, double) != Share(b, double)
  {
    hide Share;
    ShareOfDouble(a);
    ShareOfDouble(b);
  }

  function Swapped(ds: seq<int>, i: nat): seq<int>
    requires i + 1 < |ds|
  {
    ds[i := ds[i + 1]][i + 1 := ds[i]]
  }

  predicate ZeroAndNine(a: int, b: int) {
    (a == 0 && b == 9) || (a == 9 && b == 0)
  }

  /** Luhn sees every exchange of two neighbours except 09 for 90, at any length. */
  lemma {:induction false} LuhnSeesSwaps(ds: seq<int>, i: nat, double: bool)
    requires Digits(ds) && i + 1 < |ds|
    ensures LuhnSum(Swapped(ds, i), double) % 10 == LuhnSum(ds, double) % 10 <==>
            ds[i] == ds[i + 1] || ZeroAndNine(ds[i], ds[i + 1])
  {
    hide LuhnSum, Share, Doubled;
    var a, b := ds[i], ds[i + 1];
    var p, q := Doubled(|ds|, i, double), Doubled(|ds|, i + 1, double);
    NeighboursAlternate(|ds|, i, double);
    LuhnChange(ds, i, b, double);
    LuhnChange(ds[i := b], i + 1, a, double);
    var change := Share(b, p) - Share(a, p) + (Share(a, q) - Share(b, q));
    SwapBalance(a, b, p);
    SameMod(10, LuhnSum(ds, double), change);
  }

  lemma NeighboursAlternate(n: nat, i: nat, double: bool)
    requires i + 1 < n
    ensures Doubled(n, i, double) == !Doubled(n, i + 1, double)
  {
  }

  lemma SwapBalance(a: int, b: int, p: bool)
    requires 0 <= a <= 9 && 0 <= b <= 9
    ensures (Share(b, p) - Share(a, p) + (Share(a, !p) - Share(b, !p))) % 10 == 0 <==> a == b || ZeroAndNine(a, b)
  {
    hide Share;
    ShareOfDouble(a);
    ShareOfDouble(b);
  }

  lemma ShareOfDouble(a: int)
    requires 0 <= a <= 9
    ensures Share(a, true) == (if a < 5 then 2 * a else 2 * a - 9) && Share(a, false) == a
  {
  }

  lemma {:induction false} DigitsOfAll(s: string)
    requires AllDigits(s)
    ensures |DigitsOf(s)| == |s| && forall i :: 0 <= i < |s| ==> DigitsOf(s)[i] == DigitOf(s[i])
  {
    if s != [] {
      DigitsOfAll(s[..|s| - 1]);
    }
  }

  lemma DigitsOfChange(s: string, k: nat, c: char)
    requires AllDigits(s) && k < |s| && IsDigit(c)
    ensures AllDigits(s[k := c]) && k < |DigitsOf(s)| && DigitsOf(s[k := c]) == DigitsOf(s)[k := DigitOf(c)]
  {
    DigitsOfAll(s);
    DigitsOfAll(s[k := c]);
  }

  /** A valid card number with one digit misread is refused. */
  lemma {:induction false} LuhnRefusesOneMisread(content: string, start: nat, end: nat, k: nat, c: char)
    requires start <= k < end <= |content| && AllDigits(content[start..end]) && LuhnAccepts(content, start, end)
    requires IsDigit(c) && c != content[k]
    ensures !LuhnAccepts(content[k := c], start, end)
  {
    hide LuhnSum, DigitsOf;
    var s := content[start..end];
    assert content[k := c][start..end] == s[k - start := c];
    DigitsOfChange(s, k - start, c);
    DigitsOfAll(s);
    LuhnSeesOneDigit(DigitsOf(s), k - start, DigitOf(c), false);
  }

  /** A valid card number with two different neighbours exchanged is refused, unless they are 0 and 9. */
  lemma {:induction false} LuhnRefusesSwap(content: string, start: nat, end: nat, k: nat)
    requires start <= k && k + 1 < end <= |content| && AllDigits(content[start..end]) && LuhnAccepts(content, start, end)
    requires content[k] != content[k + 1]
    ensures
      var swapped := content[k := content[k + 1]][k + 1 := content[k]];
      LuhnAccepts(swapped, start, end) <==> (content[k] == '0' && content[k + 1] == '9') || (content[k] == '9' && content[k + 1] == '0')
  {
    hide LuhnSum, DigitsOf;
    var swapped := content[k := content[k + 1]][k + 1 := content[k]];
    var s, i := content[start..end], k - start;
    assert s[i] == content[k] && s[i + 1] == content[k + 1];
    assert swapped[start..end] == s[i := s[i + 1]][i + 1 := s[i]];
    SwappedDigits(s, i);
    DigitsOfAll(s);
    LuhnSeesSwaps(DigitsOf(s), i, false);
  }

  lemma SwappedDigits(s: string, i: nat)
    requires AllDigits(s) && i + 1 < |s|
    ensures |DigitsOf(s)| == |s| && DigitsOf(s[i := s[i + 1]][i + 1 := s[i]]) == Swapped(DigitsOf(s), i)
  {
    hide DigitsOf;
    DigitsOfAll(s);
    DigitsOfChange(s, i, s[i + 1]);
    DigitsOfAll(s[i := s[i + 1]]);
    DigitsOfChange(s[i := s[i + 1]], i + 1, s[i]);
  }

  // --- Identity card ---

  const ID_LENGTH: nat := 18
  const WEIGHTS: seq<int> := [7, 9, 10, 5, 8, 4, 2, 1, 6, 3, 7, 9, 10, 5, 8, 4, 2]
  const CHECK: string := "10X98765432"

  /** Seventeen digits and a check character, which may be an X in either case. */
  predicate IdShape(s: string) {
    && |s| == ID_LENGTH
    && (forall i :: 0 <= i < 17 ==> IsDigit(s[i]))
    && (IsDigit(s[17]) || s[17] == 'X' || s[17] == 'x')
  }

  /** The value of a character of the number; X counts ten. */
  function ValueOf(c: char): (v: int)
    ensures 0 <= v <= 10
  {
    if IsDigit(c) then DigitOf(c) else 10
  }

  function WeightedSum(s: string, n: nat): int
    requires n <= |s| && n <= |WEIGHTS|
  {
    if n == 0 then 0 else WeightedSum(s, n - 1) + WEIGHTS[n - 1] * ValueOf(s[n - 1])
  }

  /** ISO 7064 MOD 11-2: with weight one for the check character, the weighted sum is one modulo eleven. */
  predicate Congruent(s: string)
    requires |s| == ID_LENGTH
  {
    (WeightedSum(s, 17) + ValueOf(s[17])) % 11 == 1
  }

  predicate IdAccepts(content: string, start: nat, end: nat)
    requires start <= end <= |content|
  {
    Unflanked(content, start, end) && IdShape(content[start..end]) && Congruent(content[start..end])
  }

  method ValidIdCard(content: string, start: nat, end: nat) returns (valid: bool)
    requires start <= end <= |content|
    ensures valid <==> IdAccepts(content, start, end)
  {
    if start > 0 && IsDigit(content[start - 1]) {
      return false;
    }
    if end < |content| && IsDigit(content[end]) {
      return false;
    }
    var s := content[start..end];
    if |s| != ID_LENGTH {
      return false;
    }
    var sum := 0;
    SumSteps(s, 0);
    LargeX();
    hide WeightedSum, ValueOf;
    for i := 0 to 17
      invariant forall j :: 0 <= j < i ==> IsDigit(s[j])
      invariant sum == WeightedSum(s, i)
    {
      if !IsDigit(s[i]) {
        return false;
      }
      SumSteps(s, i);
      sum := sum + DigitOf(s[i]) * WEIGHTS[i];
    }
    var expected := CHECK[sum % 11];
    var last := s[17];
    var actual;
    if IsDigit(last) {
      actual := last;
    } else if last == 'X' || last == 'x' {
      actual := 'X';
    } else {
      return false;
    }
    TableIsCongruence(sum, actual);
    valid := actual == expected;
  }

  lemma SumSteps(s: string, i: nat)
    requires i < |s| && i < 17
    ensures WeightedSum(s, 0) == 0
    ensures IsDigit(s[i]) ==> WeightedSum(s, i + 1) == WeightedSum(s, i) + DigitOf(s[i]) * WEIGHTS[i]
  {
  }

  lemma LargeX()
    ensures ValueOf('x') == ValueOf('X')
  {
  }

  lemma WeightsArePositive(i: nat)
    requires i < 17
    ensures 1 <= WEIGHTS[i] <= 10
    ensures (WEIGHTS[i] - WeightAt(i + 1)) % 11 != 0
  {
  }

  /** ISO 7064 MOD 11-2 as a running value: double, add the next character. */
  function Horner(s: string, n: nat): int
    requires n <= |s|
  {
    if n == 0 then 0 else 2 * Horner(s, n - 1) + ValueOf(s[n - 1])
  }

  function Power2(n: nat): int {
    if n == 0 then 1 else 2 * Power2(n - 1)
  }

  /** Each weight is a power of two modulo eleven. */
  lemma {:induction false} WeightIsPower(i: nat)
    requires i < 17
    ensures (Power2(17 - i) - WEIGHTS[i]) % 11 == 0
    decreases 17 - i
  {
    hide Power2;
    PowerStep(16 - i);
    if i == 16 {
      PowerStep(0);
    } else {
      WeightIsPower(i + 1);
      WeightStep(i);
      DoubleCongruent(Power2(16 - i), WEIGHTS[i + 1], WEIGHTS[i]);
    }
  }

  lemma PowerStep(n: nat)
    ensures Power2(0) == 1 && Power2(n + 1) == 2 * Power2(n)
  {
  }

  lemma WeightStep(i: nat)
    requires i < 16
    ensures (2 * WEIGHTS[i + 1] - WEIGHTS[i]) % 11 == 0
  {
  }

  lemma DoubleCongruent(p: int, w: int, w': int)
    requires (p - w) % 11 == 0 && (2 * w - w') % 11 == 0
    ensures (2 * p - w') % 11 == 0
  {
  }

  lemma AddCongruent(p: int, w: int, v: int, a: int, b: int)
    requires (p - w) % 11 == 0 && (a - b) % 11 == 0
    ensures ((a + p * v) - (b + w * v)) % 11 == 0
  {
    var q, r := (p - w) / 11, (a - b) / 11;
    assert (a + p * v) - (b + w * v) == 11 * (r + q * v) by {
      assert p * v - w * v == (p - w) * v == 11 * q * v == 11 * (q * v);
    }
  }

  lemma {:induction false} WeightsAreHorner(s: string, n: nat)
    requires n <= 17 && n <= |s|
    ensures (Power2(18 - n) * Horner(s, n) - WeightedSum(s, n)) % 11 == 0
  {
    hide ValueOf, Power2;
    if n > 0 {
      var k := n - 1;
      WeightsAreHorner(s, k);
      WeightIsPower(k);
      var p, h, x := Power2(17 - k), Horner(s, k), ValueOf(s[k]);
      AddCongruent(p, WEIGHTS[k], x, Power2(18 - k) * h, WeightedSum(s, k));
      PowerStep(17 - k);
      Doubling(p, h, x);
    }
  }

  lemma Doubling(p: int, h: int, x: int)
    ensures p * (2 * h + x) == 2 * p * h + p * x
  {
  }

  /** The weights stand for nothing but the running value: a number is congruent exactly when that comes out
      at one modulo eleven. */
  lemma {:induction false} CongruentExactly(s: string)
    requires |s| == ID_LENGTH
    ensures Congruent(s) <==> Horner(s, ID_LENGTH) % 11 == 1
  {
    hide ValueOf, WeightedSum;
    WeightsAreHorner(s, 17);
    PowerStep(0);
    assert Horner(s, 18) == 2 * Horner(s, 17) + ValueOf(s[17]);
  }

  /** Looking the check character up in the table is the congruence. */
  lemma {:induction false} TableIsCongruence(sum: int, c: char)
    requires IsDigit(c) || c == 'X'
    ensures c == CHECK[sum % 11] <==> (sum + ValueOf(c)) % 11 == 1
  {
    hide ValueOf;
    var r := sum % 11;
    TableEntry(r);
    CheckValue(sum, ValueOf(c));
    SameValue(c, CHECK[r]);
  }

  /** The one value that completes a sum to one modulo eleven. */
  lemma CheckValue(sum: int, v: int)
    requires 0 <= v <= 10
    ensures (sum + v) % 11 == 1 <==> v == (12 - sum % 11) % 11
  {
  }

  lemma SameValue(c: char, c': char)
    requires (IsDigit(c) || c == 'X') && (IsDigit(c') || c' == 'X')
    ensures c == c' <==> ValueOf(c) == ValueOf(c')
  {
  }

  lemma TableEntry(r: int)
    requires 0 <= r < 11
    ensures (IsDigit(CHECK[r]) || CHECK[r] == 'X') && ValueOf(CHECK[r]) == (12 - r) % 11
  {
  }

  lemma {:induction false} WeightedChange(s: string, n: nat, i: nat, c: char)
    requires n <= |s| && n <= 17 && i < |s|
    ensures WeightedSum(s[i := c], n) - WeightedSum(s, n) == if i < n then WEIGHTS[i] * (ValueOf(c) - ValueOf(s[i])) else 0
  {
    hide ValueOf;
    if n > 0 {
      WeightedChange(s, n - 1, i, c);
      if i == n - 1 {
        Distributes(WEIGHTS[i], ValueOf(c), ValueOf(s[i]));
      }
    }
  }

  lemma Distributes(w: int, x: int, y: int)
    ensures w * (x - y) == w * x - w * y
  {
  }

  /** Eleven is prime: a weight times a difference of two values is no multiple of it. */
  lemma NoZeroProduct(w: int, x: int)
    requires 1 <= w <= 10 && -10 <= x <= 10 && x != 0
    ensures (w * x) % 11 != 0
  {
    if w <= 5 {
      SmallWeight(w, x);
    } else {
      SmallWeight(11 - w, x);
      assert w * x == 11 * x - (11 - w) * x;
    }
  }

  lemma SmallWeight(w: int, x: int)
    requires 1 <= w <= 5 && -10 <= x <= 10 && x != 0
    ensures (w * x) % 11 != 0
  {
    if w == 1 {
    } else if w == 2 {
    } else if w == 3 {
    } else if w == 4 {
    }
  }

  /** A valid identity number with one value changed is refused. */
  lemma {:induction false} IdRefusesOneMisread(content: string, start: nat, end: nat, k: nat, c: char)
    requires start <= k < end <= |content| && IdAccepts(content, start, end)
    requires ValueOf(c) != ValueOf(content[k])
    ensures !IdAccepts(content[k := c], start, end)
  {
    hide WeightedSum, ValueOf;
    var s, i := content[start..end], k - start;
    assert content[k := c][start..end] == s[i := c];
    IdChange(s, i, c);
    var w, x := WeightAt(i), ValueOf(c) - ValueOf(s[i]);
    NoZeroProduct(w, x);
    Shifted(WeightedSum(s, 17) + ValueOf(s[17]), w * x);
  }

  lemma IdChange(s: string, i: nat, c: char)
    requires |s| == ID_LENGTH && i < ID_LENGTH
    ensures
      var t := s[i := c];
      WeightedSum(t, 17) + ValueOf(t[17]) == WeightedSum(s, 17) + ValueOf(s[17]) + WeightAt(i) * (ValueOf(c) - ValueOf(s[i]))
    ensures 1 <= WeightAt(i) <= 10
  {
    hide WeightedSum, ValueOf;
    WeightedChange(s, 17, i, c);
    if i < 17 {
      WeightsArePositive(i);
    }
  }

  lemma Shifted(total: int, change: int)
    requires total % 11 == 1 && change % 11 != 0
    ensures (total + change) % 11 != 1
  {
  }

  /** A valid identity number with two neighbours of different value exchanged is refused. */
  lemma {:induction false} IdRefusesSwap(content: string, start: nat, end: nat, k: nat)
    requires start <= k && k + 1 < end <= |content| && IdAccepts(content, start, end)
    requires ValueOf(content[k]) != ValueOf(content[k + 1])
    ensures !IdAccepts(content[k := content[k + 1]][k + 1 := content[k]], start, end)
  {
    hide WeightedSum, ValueOf;
    var s, i := content[start..end], k - start;
    var swapped := content[k := content[k + 1]][k + 1 := content[k]];
    assert swapped[start..end] == s[i := s[i + 1]][i + 1 := s[i]];
    IdSwapChange(s, i);
    var w, x := WEIGHTS[i] - WeightAt(i + 1), ValueOf(s[i + 1]) - ValueOf(s[i]);
    WeightsArePositive(i);
    NoZeroProduct(w % 11, x);
    SameProduct(w, x);
    Shifted(WeightedSum(s, 17) + ValueOf(s[17]), w * x);
  }

  function WeightAt(i: nat): int
    requires i < ID_LENGTH
  {
    if i == 17 then 1 else WEIGHTS[i]
  }

  lemma IdSwapChange(s: string, i: nat)
    requires |s| == ID_LENGTH && i < 17
    ensures
      var t := s[i := s[i + 1]][i + 1 := s[i]];
      WeightedSum(t, 17) + ValueOf(t[17]) ==
      WeightedSum(s, 17) + ValueOf(s[17]) + (WEIGHTS[i] - WeightAt(i + 1)) * (ValueOf(s[i + 1]) - ValueOf(s[i]))
  {
    hide WeightedSum, ValueOf;
    WeightedChange(s, 17, i, s[i + 1]);
    WeightedChange(s[i := s[i + 1]], 17, i + 1, s[i]);
    SwapChange(WEIGHTS[i], WeightAt(i + 1), ValueOf(s[i + 1]) - ValueOf(s[i]));
  }

  lemma SwapChange(w: int, w': int, x: int)
    ensures w * x + w' * -x == (w - w') * x
  {
  }

  lemma SameProduct(u: int, x: int)
    ensures (u * x) % 11 == ((u % 11) * x) % 11
  {
    var q, r := u / 11, u % 11;
    assert u * x == r * x + 11 * (q * x);
  }
}
