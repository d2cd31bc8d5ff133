/** The check digits that confirm a candidate identifier, and the slips they catch. */
module Checksums {
  import opened Text

  function DigitValue(c: char): nat
    requires IsDigit(c)
  {
    c as int - '0' as int
  }

  // ---------- weighted sums: PESEL and NIP ----------

  const PESEL_WEIGHTS: seq<int> := [1, 3, 7, 9, 1, 3, 7, 9, 1, 3]
  const NIP_WEIGHTS: seq<int> := [6, 5, 7, 2, 3, 4, 5, 6, 7]

  function Weighted(ds: seq<nat>, ws: seq<int>): int {
    if ds == [] || ws == [] then 0 else ds[0] * ws[0] + Weighted(ds[1..], ws[1..])
  }

  /** The digits of a text, if it holds nothing else. */
  function AllDigits(value: string): (r: Option<seq<nat>>)
    ensures r.Some? <==> forall c | c in value :: IsDigit(c)
    ensures r.Some? ==> |r.value| == |value| && forall i | 0 <= i < |value| :: r.value[i] == DigitValue(value[i])
  {
    if value == [] then Some([])
    else if !IsDigit(value[0]) then None
    else
      var rest := AllDigits(value[1..]);
      if rest.None? then None else Some([DigitValue(value[0])] + rest.value)
  }

  predicate ValidatePesel(value: string) {
    var digits := AllDigits(value);
    digits.Some? && |digits.value| == 11 &&
    var sum := Weighted(digits.value[..10], PESEL_WEIGHTS);
    (10 - sum % 10) % 10 == digits.value[10]
  }

  predicate ValidateNip(value: string) {
    var digits := AllDigits(value);
    digits.Some? && |digits.value| == 10 &&
    var sum := Weighted(digits.value[..9], NIP_WEIGHTS);
    sum % 11 == digits.value[9]
  }

  lemma {:induction false} WeightedConcat(a: seq<nat>, b: seq<nat>, v: seq<int>, w: seq<int>)
    requires |a| == |v|
    ensures Weighted(a + b, v + w) == Weighted(a, v) + Weighted(b, w)
  {
    if a == [] {
      assert a + b == b && v + w == w;
    } else {
      WeightedConcat(a[1..], b, v[1..], w);
      assert (a + b)[1..] == a[1..] + b && (v + w)[1..] == v[1..] + w;
    }
  }

  /** One digit changed. */
  predicate OneChanged(v: string, w: string, k: nat) {
    && |v| == |w| && k < |v| && v[k] != w[k] && (forall c | c in v + w :: IsDigit(c))
    && forall i | 0 <= i < |v| && i != k :: v[i] == w[i]
  }

  /** Two digits next to each other exchanged. */
  predicate Swapped(v: string, w: string, k: nat) {
    && |v| == |w| && k + 1 < |v| && v[k] == w[k + 1] && v[k + 1] == w[k] && (forall c | c in v + w :: IsDigit(c))
    && forall i | 0 <= i < |v| && i != k && i != k + 1 :: v[i] == w[i]
  }

  /** What one changed place does to a weighted sum. */
  lemma {:induction false} WeightedChange(a: seq<nat>, b: seq<nat>, ws: seq<int>, k: nat)
    requires |a| == |b| == |ws| && k < |a| && forall i | 0 <= i < |a| && i != k :: a[i] == b[i]
    ensures Weighted(b, ws) - Weighted(a, ws) == (b[k] - a[k]) * ws[k]
  {
    if k > 0 {
      WeightedChange(a[1..], b[1..], ws[1..], k - 1);
    } else {
      assert a[1..] == b[1..];
    }
  }

  lemma {:induction false} WeightedSwap(a: seq<nat>, b: seq<nat>, ws: seq<int>, k: nat)
    requires |a| == |b| == |ws| && k + 1 < |a| && a[k] == b[k + 1] && a[k + 1] == b[k]
    requires forall i | 0 <= i < |a| && i != k && i != k + 1 :: a[i] == b[i]
    ensures Weighted(b, ws) - Weighted(a, ws) == (b[k] - a[k]) * (ws[k] - ws[k + 1])
  {
    var m := a[k := b[k]];
    WeightedChange(a, m, ws, k);
    WeightedChange(m, b, ws, k + 1);
    assert (b[k] - a[k]) * (ws[k] - ws[k + 1]) == (b[k] - a[k]) * ws[k] + (a[k] - b[k]) * ws[k + 1];
  }

  function Digits(value: string): (ds: seq<nat>)
    requires forall c | c in value :: IsDigit(c)
    ensures |ds| == |value| && forall i | 0 <= i < |value| :: ds[i] == DigitValue(value[i]) <= 9
  {
    assert forall i | 0 <= i < |value| :: value[i] in value;
    AllDigits(value).value
  }

  /** A number is accepted exactly when its weighted sum, the check digit included, is a multiple. */
  lemma {:induction false} PeselSum(value: string)
    ensures ValidatePesel(value) <==>
              |value| == 11 && (forall c | c in value :: IsDigit(c)) && Weighted(Digits(value), PESEL_WEIGHTS + [1]) % 10 == 0
  {
    if |value| == 11 && forall c | c in value :: IsDigit(c) {
      CheckDigitJoins(Digits(value), PESEL_WEIGHTS, 1);
    }
  }

  lemma {:induction false} NipSum(value: string)
    ensures ValidateNip(value) <==>
              |value| == 10 && (forall c | c in value :: IsDigit(c)) && Weighted(Digits(value), NIP_WEIGHTS + [-1]) % 11 == 0
  {
    if |value| == 10 && forall c | c in value :: IsDigit(c) {
      CheckDigitJoins(Digits(value), NIP_WEIGHTS, -1);
    }
  }

  lemma {:induction false} CheckDigitJoins(ds: seq<nat>, ws: seq<int>, w: int)
    requires |ds| == |ws| + 1
    ensures Weighted(ds, ws + [w]) == Weighted(ds[..|ws|], ws) + ds[|ws|] * w
  {
    assert ds == ds[..|ws|] + [ds[|ws|]];
    WeightedConcat(ds[..|ws|], [ds[|ws|]], ws, [w]);
  }

  lemma {:induction false} WeightedStep(ds: seq<nat>, ws: seq<int>, i: nat)
    requires i < |ds| && i < |ws|
    ensures Weighted(ds[i..], ws[i..]) == ds[i] * ws[i] + Weighted(ds[i + 1..], ws[i + 1..])
  {
    assert ds[i..][1..] == ds[i + 1..] && ws[i..][1..] == ws[i + 1..];
  }

  lemma {:induction false} FiveSteps(ds: seq<nat>, ws: seq<int>, i: nat)
    requires i + 5 <= |ds| && i + 5 <= |ws|
    ensures Weighted(ds[i..], ws[i..])
         == ds[i] * ws[i] + ds[i + 1] * ws[i + 1] + ds[i + 2] * ws[i + 2] + ds[i + 3] * ws[i + 3] + ds[i + 4] * ws[i + 4]
            + Weighted(ds[i + 5..], ws[i + 5..])
  {
    hide Weighted;
    WeightedStep(ds, ws, i);
    WeightedStep(ds, ws, i + 1);
    WeightedStep(ds, ws, i + 2);
    WeightedStep(ds, ws, i + 3);
    WeightedStep(ds, ws, i + 4);
  }

  /** A weighted sum of ten places or eleven. */
  lemma {:induction false} TenTerms(ds: seq<nat>, ws: seq<int>)
    requires |ds| == |ws| && |ds| in {10, 11}
    ensures Weighted(ds, ws)
         == ds[0] * ws[0] + ds[1] * ws[1] + ds[2] * ws[2] + ds[3] * ws[3] + ds[4] * ws[4]
            + ds[5] * ws[5] + ds[6] * ws[6] + ds[7] * ws[7] + ds[8] * ws[8] + ds[9] * ws[9]
            + if |ds| == 11 then ds[10] * ws[10] else 0
  {
    assert ds[0..] == ds && ws[0..] == ws;
    FiveSteps(ds, ws, 0);
    FiveSteps(ds, ws, 5);
    LastTerm(ds[10..], ws[10..]);
  }

  lemma {:induction false} LastTerm(ds: seq<nat>, ws: seq<int>)
    requires |ds| == |ws| <= 1
    ensures Weighted(ds, ws) == if ds == [] then 0 else ds[0] * ws[0]
  {
  }

  lemma {:induction false} PeselTerms(d: seq<nat>)
    requires |d| == 11
    ensures Weighted(d, PESEL_WEIGHTS + [1])
         == d[0] + 3 * d[1] + 7 * d[2] + 9 * d[3] + d[4] + 3 * d[5] + 7 * d[6] + 9 * d[7] + d[8] + 3 * d[9] + d[10]
  {
    hide Weighted;
    var ws := PESEL_WEIGHTS + [1];
    assert ws == [1, 3, 7, 9, 1, 3, 7, 9, 1, 3, 1];
    TenTerms(d, ws);
  }

  lemma {:induction false} NipTerms(d: seq<nat>)
    requires |d| == 10
    ensures Weighted(d, NIP_WEIGHTS + [-1])
         == 6 * d[0] + 5 * d[1] + 7 * d[2] + 2 * d[3] + 3 * d[4] + 4 * d[5] + 5 * d[6] + 6 * d[7] + 7 * d[8] - (d[9] as int)
  {
    hide Weighted;
    var ws := NIP_WEIGHTS + [-1];
    assert ws == [6, 5, 7, 2, 3, 4, 5, 6, 7, -1];
    TenTerms(d, ws);
  }

  /** The PESEL rule, written out. */
  lemma {:induction false} PeselFormula(v: string)
    requires |v| == 11 && forall c | c in v :: IsDigit(c)
    ensures var d := Digits(v);
            ValidatePesel(v) <==>
            (d[0] + 3 * d[1] + 7 * d[2] + 9 * d[3] + d[4] + 3 * d[5] + 7 * d[6] + 9 * d[7] + d[8] + 3 * d[9] + d[10]) % 10 == 0
  {
    hide ValidatePesel, Weighted, Digits;
    PeselSum(v);
    PeselTerms(Digits(v));
  }

  /** The NIP rule, written out. */
  lemma {:induction false} NipFormula(v: string)
    requires |v| == 10 && forall c | c in v :: IsDigit(c)
    ensures var d := Digits(v);
            ValidateNip(v) <==>
            (6 * d[0] + 5 * d[1] + 7 * d[2] + 2 * d[3] + 3 * d[4] + 4 * d[5] + 5 * d[6] + 6 * d[7] + 7 * d[8] - (d[9] as int)) % 11 == 0
  {
    hide ValidateNip, Weighted, Digits;
    NipSum(v);
    NipTerms(Digits(v));
  }

  // ---------- arithmetic of the weights ----------

  lemma {:induction false} Shift(x: int, y: int)
    ensures x % 10 == 0 ==> (y % 10 == 0 <==> (y - x) % 10 == 0)
    ensures x % 11 == 0 ==> (y % 11 == 0 <==> (y - x) % 11 == 0)
  {
    ShiftTen(x, y);
    ShiftEleven(x, y);
  }

  lemma {:induction false} ShiftTen(x: int, y: int)
    ensures x % 10 == 0 ==> (y % 10 == 0 <==> (y - x) % 10 == 0)
  {
    assert x == 10 * (x / 10) + x % 10 && y == 10 * (y / 10) + y % 10;
    assert y - x == 10 * (y / 10 - x / 10) + (y % 10 - x % 10);
  }

  lemma {:induction false} ShiftEleven(x: int, y: int)
    ensures x % 11 == 0 ==> (y % 11 == 0 <==> (y - x) % 11 == 0)
  {
    assert x == 11 * (x / 11) + x % 11 && y == 11 * (y / 11) + y % 11;
    assert y - x == 11 * (y / 11 - x / 11) + (y % 11 - x % 11);
  }

  lemma {:induction false} PeselWeight(k: nat)
    requires k < 11
    ensures (PESEL_WEIGHTS + [1])[k] in {1, 3, 7, 9}
    ensures k < 10 ==> (PESEL_WEIGHTS + [1])[k] - (PESEL_WEIGHTS + [1])[k + 1] in {-2, -4, 8, 2}
  {
    var ws := PESEL_WEIGHTS + [1];
    assert ws == [1, 3, 7, 9, 1, 3, 7, 9, 1, 3, 1];
  }

  lemma {:induction false} NipWeight(k: nat)
    requires k < 10
    ensures (NIP_WEIGHTS + [-1])[k] in {6, 5, 7, 2, 3, 4, -1}
    ensures k < 9 ==> (NIP_WEIGHTS + [-1])[k] - (NIP_WEIGHTS + [-1])[k + 1] in {1, -2, 5, -1, 8}
  {
    var ws := NIP_WEIGHTS + [-1];
    assert ws == [6, 5, 7, 2, 3, 4, 5, 6, 7, -1];
  }

  lemma {:induction false} TenKeeps(e: int, w: int)
    requires -9 <= e <= 9 && w in {1, 3, 7, 9}
    ensures (e * w) % 10 == 0 <==> e == 0
  {
    if w == 1 {} else if w == 3 {} else if w == 7 {} else {}
  }

  lemma {:induction false} TenHalves(e: int, w: int)
    requires -9 <= e <= 9 && w in {-2, -4, 8, 2}
    ensures (e * w) % 10 == 0 <==> e in {0, 5, -5}
  {
    if w == -2 {} else if w == -4 {} else if w == 8 {} else {}
  }

  lemma {:induction false} ElevenKeeps(e: int, w: int)
    requires -9 <= e <= 9 && w in {6, 5, 7, 2, 3, 4, -1, 1, -2, 8}
    ensures (e * w) % 11 == 0 <==> e == 0
  {
    if w == 6 {} else if w == 5 {} else if w == 7 {} else if w == 2 {} else if w == 3 {}
    else if w == 4 {} else if w == -1 {} else if w == 1 {} else if w == -2 {} else {}
  }

  // ---------- the slips PESEL and NIP catch ----------

  /** Every single wrong digit in a PESEL is caught. */
  lemma {:induction false} PeselCatchesOneDigit(v: string, w: string, k: nat)
    requires ValidatePesel(v) && OneChanged(v, w, k)
    ensures !ValidatePesel(w)
  {
    hide Weighted, ValidatePesel, Digits, AllDigits;
    PeselSum(v);
    PeselSum(w);
    var a, b, ws := Digits(v), Digits(w), PESEL_WEIGHTS + [1];
    WeightedChange(a, b, ws, k);
    Shift(Weighted(a, ws), Weighted(b, ws));
    PeselWeight(k);
    TenKeeps(b[k] as int - a[k] as int, ws[k]);
  }

  /** Two exchanged neighbours in a PESEL go unnoticed exactly when they differ by nothing or by five. */
  lemma {:induction false} PeselSwapExactly(v: string, w: string, k: nat)
    requires ValidatePesel(v) && Swapped(v, w, k)
    ensures ValidatePesel(w) <==> v[k] == v[k + 1] || DigitValue(v[k]) - DigitValue(v[k + 1]) in {5, -5}
  {
    hide Weighted, ValidatePesel, Digits, AllDigits;
    PeselSum(v);
    PeselSum(w);
    var a, b, ws := Digits(v), Digits(w), PESEL_WEIGHTS + [1];
    WeightedSwap(a, b, ws, k);
    Shift(Weighted(a, ws), Weighted(b, ws));
    PeselWeight(k);
    TenHalves(b[k] as int - a[k] as int, ws[k] - ws[k + 1]);
  }

  /** Every single wrong digit in a NIP is caught. */
  lemma {:induction false} NipCatchesOneDigit(v: string, w: string, k: nat)
    requires ValidateNip(v) && OneChanged(v, w, k)
    ensures !ValidateNip(w)
  {
    hide Weighted, ValidateNip, Digits, AllDigits;
    NipSum(v);
    NipSum(w);
    var a, b, ws := Digits(v), Digits(w), NIP_WEIGHTS + [-1];
    WeightedChange(a, b, ws, k);
    Shift(Weighted(a, ws), Weighted(b, ws));
    NipWeight(k);
    ElevenKeeps(b[k] as int - a[k] as int, ws[k]);
  }

  /** So are two exchanged neighbours, unless they are the same digit. */
  lemma {:induction false} NipCatchesSwaps(v: string, w: string, k: nat)
    requires ValidateNip(v) && Swapped(v, w, k)
    ensures ValidateNip(w) <==> v[k] == v[k + 1]
  {
    hide Weighted, ValidateNip, Digits, AllDigits;
    NipSum(v);
    NipSum(w);
    var a, b, ws := Digits(v), Digits(w), NIP_WEIGHTS + [-1];
    WeightedSwap(a, b, ws, k);
    Shift(Weighted(a, ws), Weighted(b, ws));
    NipWeight(k);
    ElevenKeeps(b[k] as int - a[k] as int, ws[k] - ws[k + 1]);
  }
}
