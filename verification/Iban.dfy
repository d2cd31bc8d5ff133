/** The IBAN check (ISO 13616-1, with MOD 97-10 of ISO/IEC 7064). */
module Iban {
  import opened Text
  import opened Checksums

  predicate IsWhitespace(c: char) {
    '\t' <= c <= '\r' || c == ' ' || c == '\U{85}' || c == '\U{A0}' || c == '\U{1680}' || '\U{2000}' <= c <= '\U{200A}'
    || c == '\U{2028}' || c == '\U{2029}' || c == '\U{202F}' || c == '\U{205F}' || c == '\U{3000}'
  }

  function Cleaned(value: string): string {
    if value == [] then []
    else (if IsWhitespace(value[0]) then [] else [ToUpper(value[0])]) + Cleaned(value[1..])
  }

  /** The country code and check digits moved to the end. */
  function Rearranged(cleaned: string): string
    requires |cleaned| >= 4
  {
    cleaned[4..] + cleaned[..4]
  }

  predicate Spellable(c: char) { IsUpper(c) || IsDigit(c) }

  function LetterValue(c: char): nat
    requires IsUpper(c)
  {
    c as int - 'A' as int + 10
  }

  /** A letter is written as its two-digit number, a digit as itself. */
  function Spelled(c: char): seq<nat>
    requires Spellable(c)
  {
    if IsUpper(c) then [LetterValue(c) / 10, LetterValue(c) % 10] else [DigitValue(c)]
  }

  function SpelledOut(text: string): seq<nat>
    requires forall c | c in text :: Spellable(c)
  {
    if text == [] then [] else SpelledOut(text[..|text| - 1]) + Spelled(text[|text| - 1])
  }

  /** The number a row of decimal digits writes. */
  function Number(ds: seq<nat>): nat {
    if ds == [] then 0 else Number(ds[..|ds| - 1]) * 10 + ds[|ds| - 1]
  }

  /** The rearranged text, spelled out in digits, leaves 1 when divided by 97. */
  predicate Accepted(value: string) {
    var cleaned := Cleaned(value);
    && 15 <= |cleaned| <= 34
    && (forall c | c in cleaned :: Spellable(c))
    && Rearrangeable(cleaned)
    && Number(SpelledOut(Rearranged(cleaned))) % 97 == 1
  }

  predicate Rearrangeable(cleaned: string) {
    |cleaned| >= 4 && forall c | c in Rearranged(cleaned) :: Spellable(c)
  }

  lemma {:induction false} RearrangedHolds(cleaned: string, c: char)
    requires |cleaned| >= 4
    ensures c in Rearranged(cleaned) <==> c in cleaned
  {
    assert cleaned == cleaned[..4] + cleaned[4..];
  }

  method ValidateIban(value: string) returns (ok: bool)
    ensures ok == Accepted(value)
  {
    hide Cleaned, Number, SpelledOut, IsWhitespace;
    var cleaned := Cleaned(value);
    if |cleaned| < 15 || |cleaned| > 34 {
      return false;
    }
    var rearranged := cleaned[4..] + cleaned[..4];
    forall c ensures c in rearranged <==> c in cleaned {
      RearrangedHolds(cleaned, c);
    }
    var remainder: nat := 0;
    NothingSpelled();
    for n := 0 to |rearranged|
      invariant forall c | c in rearranged[..n] :: Spellable(c)
      invariant remainder == Number(SpelledOut(rearranged[..n])) % 97
    {
      var ch := rearranged[n];
      assert rearranged[..n + 1] == rearranged[..n] + [ch] && ch in rearranged;
      if IsUpper(ch) {
        SpelledSnoc(rearranged[..n], ch);
        remainder := AddDigits(remainder, Spelled(ch), SpelledOut(rearranged[..n]));
      } else if IsDigit(ch) {
        SpelledSnoc(rearranged[..n], ch);
        NextDigit(SpelledOut(rearranged[..n]), DigitValue(ch));
        remainder := (remainder * 10 + DigitValue(ch)) % 97;
      } else {
        return false;
      }
    }
    assert rearranged[..|rearranged|] == rearranged;
    return remainder == 1;
  }

  /** The remainder after the two digits of a letter. */
  method AddDigits(remainder: nat, digits: seq<nat>, ghost before: seq<nat>) returns (r: nat)
    requires remainder == Number(before) % 97
    ensures r == Number(before + digits) % 97
  {
    r := remainder;
    assert before + digits[..0] == before;
    for d := 0 to |digits|
      invariant r == Number(before + digits[..d]) % 97
    {
      assert before + digits[..d + 1] == before + digits[..d] + [digits[d]];
      NextDigit(before + digits[..d], digits[d]);
      r := (r * 10 + digits[d]) % 97;
    }
    assert digits[..|digits|] == digits;
  }

  lemma {:induction false} SpelledSnoc(text: string, c: char)
    requires forall d | d in text :: Spellable(d)
    requires Spellable(c)
    ensures SpelledOut(text + [c]) == SpelledOut(text) + Spelled(c)
  {
    assert (text + [c])[..|text|] == text;
  }

  lemma {:induction false} NothingSpelled()
    ensures SpelledOut([]) == [] && Number([]) == 0
  {
  }

  lemma {:induction false} NextDigit(ds: seq<nat>, d: nat)
    ensures Number(ds + [d]) == Number(ds) * 10 + d
    ensures Number(ds + [d]) % 97 == (Number(ds) % 97 * 10 + d) % 97
  {
    assert (ds + [d])[..|ds|] == ds;
    var n := Number(ds);
    assert n * 10 + d == 97 * (10 * (n / 97)) + (n % 97 * 10 + d);
    SameRemainder(n * 10 + d, 10 * (n / 97), n % 97 * 10 + d);
  }

  lemma {:induction false} SameRemainder(x: nat, q: nat, r: nat)
    requires x == 97 * q + r
    ensures x % 97 == r % 97
  {
    assert x == 97 * (q + r / 97) + r % 97;
  }

  // ---------- the slips it catches ----------

  /** The number a row of digits writes after some other number. */
  function Onwards(n: int, ds: seq<nat>): int
    decreases |ds|
  {
    if ds == [] then n else Onwards(n * 10 + ds[0], ds[1..])
  }

  lemma {:induction false} NumberConcat(a: seq<nat>, b: seq<nat>)
    ensures Number(a + b) == Onwards(Number(a), b)
    decreases |b|
  {
    if b == [] {
      assert a + b == a;
    } else {
      assert a + b == (a + [b[0]]) + b[1..];
      NextDigit(a, b[0]);
      NumberConcat(a + [b[0]], b[1..]);
    }
  }

  /** Ten has an inverse, 68, so no power of ten hides a difference. */
  lemma {:induction false} TenIsInvertible(x: int)
    requires (10 * x) % 97 == 0
    ensures x % 97 == 0
  {
    assert x == 68 * (10 * x) - 97 * (7 * x);
    var q := (10 * x) / 97;
    assert x == 97 * (68 * q - 7 * x);
  }

  /** Numbers that differ by no multiple of 97 still do after the same digits. */
  lemma {:induction false} DifferenceStays(m: int, n: int, ds: seq<nat>)
    requires (Onwards(m, ds) - Onwards(n, ds)) % 97 == 0
    ensures (m - n) % 97 == 0
    decreases |ds|
  {
    if ds != [] {
      DifferenceStays(m * 10 + ds[0], n * 10 + ds[0], ds[1..]);
      assert m * 10 + ds[0] - (n * 10 + ds[0]) == 10 * (m - n);
      TenIsInvertible(m - n);
    }
  }

  /** Both digits, or both letters, and different. */
  predicate AlikeButDifferent(a: char, b: char) {
    a != b && ((IsDigit(a) && IsDigit(b)) || (IsUpper(a) && IsUpper(b)))
  }

  lemma {:induction false} SpelledConcat(a: string, b: string)
    requires (forall c | c in a :: Spellable(c)) && forall c | c in b :: Spellable(c)
    ensures forall c | c in a + b :: Spellable(c)
    ensures SpelledOut(a + b) == SpelledOut(a) + SpelledOut(b)
    decreases |b|
  {
    hide SpelledOut, Spelled, Spellable;
    NothingSpelled();
    if b == [] {
      assert a + b == a;
    } else {
      var init, c := b[..|b| - 1], b[|b| - 1];
      assert b == init + [c] && a + b == (a + init) + [c];
      SpelledConcat(a, init);
      SpelledSnoc(a + init, c);
      SpelledSnoc(init, c);
    }
  }

  lemma {:induction false} SpelledApart(a: char, b: char, n: int)
    requires AlikeButDifferent(a, b)
    ensures (Onwards(n, Spelled(a)) - Onwards(n, Spelled(b))) % 97 != 0
  {
    SpelledValue(a, n);
    SpelledValue(b, n);
  }

  lemma {:induction false} SpelledValue(c: char, n: int)
    requires Spellable(c)
    ensures Onwards(n, Spelled(c)) == if IsUpper(c) then n * 100 + LetterValue(c) else n * 10 + DigitValue(c)
  {
    if IsUpper(c) {
      var v := LetterValue(c);
      var ds := Spelled(c);
      assert ds == [v / 10, v % 10] && ds[1..] == [v % 10] && ds[1..][1..] == [];
      assert Onwards(n, ds) == Onwards(n * 10 + v / 10, ds[1..]) == Onwards((n * 10 + v / 10) * 10 + v % 10, ds[1..][1..]);
      assert Onwards(n, Spelled(c)) == (n * 10 + v / 10) * 10 + v % 10;
    } else {
      assert Spelled(c)[1..] == [];
    }
  }

  /** One character changed for another of its kind changes the remainder. */
  lemma {:induction false} RemaindersDiffer(p: string, a: char, b: char, q: string)
    requires AlikeButDifferent(a, b) && forall c | c in p + q :: Spellable(c)
    ensures (forall c | c in p + [a] + q :: Spellable(c)) && forall c | c in p + [b] + q :: Spellable(c)
    ensures Number(SpelledOut(p + [a] + q)) % 97 != Number(SpelledOut(p + [b] + q)) % 97
  {
    hide Number, Onwards, SpelledOut, Spelled;
    assert (forall c | c in p :: c in p + q) && (forall c | c in q :: c in p + q);
    NumberAround(p, a, q);
    NumberAround(p, b, q);
    var n := Number(SpelledOut(p));
    var x, y := Onwards(n, Spelled(a)), Onwards(n, Spelled(b));
    var rest := SpelledOut(q);
    SpelledApart(a, b, n);
    if Onwards(x, rest) % 97 == Onwards(y, rest) % 97 {
      DifferenceStays(x, y, rest);
      assert false;
    }
  }

  lemma {:induction false} NumberAround(p: string, c: char, q: string)
    requires (forall d | d in p :: Spellable(d)) && Spellable(c) && (forall d | d in q :: Spellable(d))
    ensures forall d | d in p + [c] + q :: Spellable(d)
    ensures Number(SpelledOut(p + [c] + q)) == Onwards(Onwards(Number(SpelledOut(p)), Spelled(c)), SpelledOut(q))
  {
    hide Number, Onwards, SpelledOut, Spelled;
    SpelledConcat(p + [c], q);
    SpelledSnoc(p, c);
    NumberConcat(SpelledOut(p) + Spelled(c), SpelledOut(q));
    NumberConcat(SpelledOut(p), Spelled(c));
  }

  lemma {:induction false} CleanedConcat(a: string, b: string)
    ensures Cleaned(a + b) == Cleaned(a) + Cleaned(b)
  {
    if a == [] {
      assert a + b == b;
    } else {
      assert (a + b)[1..] == a[1..] + b;
      CleanedConcat(a[1..], b);
    }
  }

  lemma {:induction false} CleanedAround(p: string, c: char, q: string)
    requires Spellable(ToUpper(c))
    ensures Cleaned(p + [c] + q) == Cleaned(p) + [ToUpper(c)] + Cleaned(q)
  {
    CleanedConcat(p + [c], q);
    CleanedConcat(p, [c]);
    assert Cleaned([c]) == [ToUpper(c)];
  }

  /** Rearranging moves one changed character along with its neighbours. */
  lemma {:induction false} RearrangedAround(p: string, a: char, b: char, q: string) returns (before: string, after: string)
    requires |p| + |q| >= 4
    ensures Rearranged(p + [a] + q) == before + [a] + after
    ensures Rearranged(p + [b] + q) == before + [b] + after
    ensures forall c :: c in before + after ==> c in p + q
  {
    if |p| < 4 {
      before, after := q[3 - |p|..] + p, q[..3 - |p|];
      MovedBack(p, a, q);
      MovedBack(p, b, q);
    } else {
      before, after := p[4..], q + p[..4];
      MovedFront(p, a, q);
      MovedFront(p, b, q);
    }
  }

  lemma {:induction false} MovedBack(p: string, c: char, q: string)
    requires |p| < 4 <= |p| + |q|
    ensures Rearranged(p + [c] + q) == q[3 - |p|..] + p + [c] + q[..3 - |p|]
  {
    var text := p + [c] + q;
    assert text[4..] == q[3 - |p|..] && text[..4] == p + [c] + q[..3 - |p|];
  }

  lemma {:induction false} MovedFront(p: string, c: char, q: string)
    requires |p| >= 4
    ensures Rearranged(p + [c] + q) == p[4..] + [c] + (q + p[..4])
  {
    var text := p + [c] + q;
    assert text[4..] == p[4..] + [c] + q && text[..4] == p[..4];
  }

  /** A digit mistaken for another digit, or a letter for another letter, is caught. */
  lemma {:induction false} CatchesOneCharacter(p: string, a: char, b: char, q: string)
    requires AlikeButDifferent(ToUpper(a), ToUpper(b)) && Accepted(p + [a] + q)
    ensures !Accepted(p + [b] + q)
  {
    hide Cleaned, Number, SpelledOut, Rearranged;
    CleanedAround(p, a, q);
    CleanedAround(p, b, q);
    var x, y := Cleaned(p), Cleaned(q);
    var before, after := RearrangedAround(x, ToUpper(a), ToUpper(b), y);
    var cleaned := x + [ToUpper(a)] + y;
    assert forall c | c in before + after :: c in cleaned && Spellable(c);
    RemaindersDiffer(before, ToUpper(a), ToUpper(b), after);
  }

  // ---------- the check digits ----------

  /** The number that the check digits are computed from: country code and zeros at the end. */
  function Unchecked(cleaned: string): nat
    requires |cleaned| >= 4 && forall c | c in cleaned :: Spellable(c)
  {
    Number(SpelledOut(cleaned[4..] + cleaned[..2])) * 100
  }

  lemma {:induction false} RemainderOne(n: nat, v: nat)
    requires v < 100
    ensures (n + v) % 97 == 1 <==> v % 97 == (98 - n % 97) % 97
  {
    var q, m := n / 97, n % 97;
    assert n == 97 * q + m;
    SameRemainder(n + v, q, m + v);
  }

  lemma {:induction false} TwoDigits(ds: seq<nat>, a: nat, b: nat)
    ensures Number(ds + [a] + [b]) == Number(ds) * 100 + 10 * a + b
  {
    NextDigit(ds, a);
    NextDigit(ds + [a], b);
  }

  /** With digits in the third and fourth place, a text of 15 to 34 letters and digits is accepted exactly
      when those two are 98 less the remainder of the rest modulo 97, up to 97. */
  lemma {:induction false} CheckDigitsExactly(value: string)
    requires var t := Cleaned(value); 15 <= |t| <= 34 && (forall c | c in t :: Spellable(c)) && IsDigit(t[2]) && IsDigit(t[3])
    ensures var t := Cleaned(value);
            Accepted(value) <==> (10 * DigitValue(t[2]) + DigitValue(t[3])) % 97 == (98 - Unchecked(t) % 97) % 97
  {
    hide Cleaned, Number, SpelledOut;
    var t := Cleaned(value);
    forall c ensures c in Rearranged(t) <==> c in t {
      RearrangedHolds(t, c);
    }
    var front := t[4..] + t[..2];
    assert Rearranged(t) == (front + [t[2]]) + [t[3]];
    assert forall c | c in front :: c in t;
    SpelledSnoc(front, t[2]);
    SpelledSnoc(front + [t[2]], t[3]);
    TwoDigits(SpelledOut(front), DigitValue(t[2]), DigitValue(t[3]));
    RemainderOne(Unchecked(t), 10 * DigitValue(t[2]) + DigitValue(t[3]));
  }

  /** Nothing shorter, longer or with another character is accepted. */
  lemma {:induction false} OthersAreRejected(value: string)
    requires |Cleaned(value)| < 15 || |Cleaned(value)| > 34 || exists c :: c in Cleaned(value) && !IsUpper(c) && !IsDigit(c)
    ensures !Accepted(value)
  {
    hide Cleaned, Number, SpelledOut;
  }
}
