/** Token construction and resolution over an abstract authenticated cipher.

    Sealing, opening and the payload encoding are parameters; `Sound` is all that is asked of
    them. `ToySealer` shows that the demand can be met. */
module Sealing {
  import opened Text
  import opened TokenSpan

  datatype ScanError = SealFailed(category: string) | ExternalSpanCount(expected: nat, found: nat)

  datatype Sealer = Sealer(
    seal: (string, string) -> Option<seq<Byte>>,
    open: (string, seq<Byte>) -> Option<string>,
    encode: seq<Byte> -> string,
    decode: string -> Option<seq<Byte>>)
  {
    ghost predicate Sound() {
      && (forall c, v :: seal(c, v).Some? ==> seal(c, v).value != [] && open(c, seal(c, v).value) == Some(v))
      && (forall b :: decode(encode(b)) == Some(b))
      && (forall b :: b != [] ==> IsPayload(encode(b)))
    }
  }

  predicate IsValidRuleId(id: string) {
    && 1 <= |id| <= 64
    && IsUpper(id[0])
    && forall i | 0 <= i < |id| :: IsCategoryChar(id[i])
  }

  function BuildToken(k: Sealer, category: string, value: string): Result<string, ScanError> {
    match k.seal(category, value)
    case None => Err(SealFailed(category))
    case Some(ciphertext) => Ok("[" + category + ":TOKEN_" + k.encode(ciphertext) + "]")
  }

  /** Splits at the first occurrence of a separator. */
  function SplitOnce(s: string, separator: string): Option<(string, string)>
    decreases |s|
  {
    if |separator| <= |s| && s[..|separator|] == separator then Some(("", s[|separator|..]))
    else if s == "" then None
    else
      match SplitOnce(s[1..], separator)
      case None => None
      case Some((left, right)) => Some(([s[0]] + left, right))
  }

  function ParseTokenSpan(span: string): Option<(string, string)> {
    if span == "" || span[0] != '[' then None
    else
      var rest := span[1..];
      if rest == "" || rest[|rest| - 1] != ']' then None
      else SplitOnce(rest[..|rest| - 1], ":TOKEN_")
  }

  function ResolveSpan(k: Sealer, span: string): Option<string> {
    match ParseTokenSpan(span)
    case None => None
    case Some((category, payload)) =>
      match k.decode(payload)
      case None => None
      case Some(ciphertext) => k.open(category, ciphertext)
  }

  lemma {:induction false} SplitOnceAtFirst(left: string, separator: string, right: string)
    requires separator != "" && separator[0] !in left
    ensures SplitOnce(left + separator + right, separator) == Some((left, right))
    decreases |left|
  {
    var s := left + separator + right;
    if left == "" {
      assert s[..|separator|] == separator && s[|separator|..] == right;
    } else {
      assert s[1..] == left[1..] + separator + right;
      SplitOnceAtFirst(left[1..], separator, right);
      assert s[0] == left[0] != separator[0];
      assert |separator| <= |s| ==> s[..|separator|][0] == s[0];
      assert [left[0]] + left[1..] == left;
    }
  }

  /** Parsing a span gives back the category and payload it was printed from. */
  lemma {:induction false} ParseInvertsPrint(category: string, payload: string)
    requires IsCategory(category)
    ensures ParseTokenSpan(SpanOf(category, payload)) == Some((category, payload))
  {
    var span := SpanOf(category, payload);
    assert span[1..][..|span| - 2] == category + ":TOKEN_" + payload;
    SplitOnceAtFirst(category, ":TOKEN_", payload);
  }

  /** A built token is one span, and resolving it gives back the sealed value. */
  lemma {:induction false} TokenResolves(k: Sealer, category: string, value: string)
    requires k.Sound() && IsCategory(category) && BuildToken(k, category, value).Ok?
    ensures IsSpan(BuildToken(k, category, value).value)
    ensures ResolveSpan(k, BuildToken(k, category, value).value) == Some(value)
  {
    var ciphertext := k.seal(category, value).value;
    var payload := k.encode(ciphertext);
    assert BuildToken(k, category, value).value == SpanOf(category, payload);
    BuiltSpanIsSpan(category, payload);
    ParseInvertsPrint(category, payload);
    assert k.decode(payload) == Some(ciphertext);
  }

  // ---------- a sealer that meets the demand ----------

  function ToyBytes(v: string): seq<Byte>
    requires forall i | 0 <= i < |v| :: v[i] < 256 as char
  {
    [0] + seq(|v|, i requires 0 <= i < |v| => v[i] as int as Byte)
  }

  function ToySeal(c: string, v: string): Option<seq<Byte>> {
    if forall i | 0 <= i < |v| :: v[i] < 256 as char then Some(ToyBytes(v)) else None
  }

  function ToyOpen(c: string, b: seq<Byte>): Option<string> {
    if b == [] then None
    else Some(seq(|b| - 1, i requires 0 <= i < |b| - 1 => b[i + 1] as int as char))
  }

  function ToyEncode(b: seq<Byte>): string {
    seq(2 * |b|, i requires 0 <= i < 2 * |b| =>
      ('A' as int + if i % 2 == 0 then b[i / 2] as int / 16 else b[i / 2] as int % 16) as char)
  }

  function ToyDecode(s: string): Option<seq<Byte>> {
    if |s| % 2 == 0 && forall i | 0 <= i < |s| :: 'A' <= s[i] <= 'P' then
      Some(seq(|s| / 2, i requires 0 <= i < |s| / 2 =>
        (16 * (s[2 * i] as int - 'A' as int) + (s[2 * i + 1] as int - 'A' as int)) as Byte))
    else None
  }

  function ToySealer(): Sealer {
    Sealer(ToySeal, ToyOpen, ToyEncode, ToyDecode)
  }

  lemma {:induction false} ToyEncodeInverse(b: seq<Byte>)
    ensures ToyDecode(ToyEncode(b)) == Some(b)
    ensures b != [] ==> IsPayload(ToyEncode(b))
  {
    var s := ToyEncode(b);
    forall i | 0 <= i < |s| ensures 'A' <= s[i] <= 'P' {
      assert 0 <= b[i / 2] as int / 16 < 16;
    }
    var d := ToyDecode(s).value;
    forall i | 0 <= i < |b| ensures d[i] == b[i] {
      assert (2 * i) / 2 == i && (2 * i + 1) / 2 == i && (2 * i) % 2 == 0 && (2 * i + 1) % 2 == 1;
      assert b[i] as int == 16 * (b[i] as int / 16) + b[i] as int % 16;
    }
    assert d == b;
  }

  /** The demands on a sealer are satisfiable, and by one that really seals. */
  lemma {:induction false} SoundnessIsSatisfiable()
    ensures ToySealer().Sound()
    ensures forall c, v :: (forall i | 0 <= i < |v| :: v[i] < 128 as char) ==> ToySealer().seal(c, v).Some?
  {
    var k := ToySealer();
    forall c, v | k.seal(c, v).Some? ensures k.seal(c, v).value != [] && k.open(c, k.seal(c, v).value) == Some(v) {
      assert k.seal(c, v) == ToySeal(c, v) == Some(ToyBytes(v));
      assert k.open(c, ToyBytes(v)) == ToyOpen(c, ToyBytes(v));
      assert ToyOpen(c, ToyBytes(v)).value == v;
    }
    forall b ensures k.decode(k.encode(b)) == Some(b) && (b != [] ==> IsPayload(k.encode(b))) {
      ToyEncodeInverse(b);
    }
  }
}
