/** Fail-closed detokenization: every span is resolved, or the whole text is refused. */
module Detokenize {
  import opened Text
  import opened TokenSpan
  import opened Sealing

  /** How a replacement is written into the surrounding text. */
  datatype Rendering = Verbatim | JsonEscaped

  datatype DetokenizeError = VerificationFailed(category: string, index: nat)

  function HexDigit(n: nat): char
    requires n < 16
  {
    if n < 10 then ('0' as int + n) as char else ('a' as int + n - 10) as char
  }

  function EscapeChar(c: char): string {
    if c == '"' then ['\\', '"']
    else if c == '\\' then ['\\', '\\']
    else if c as int == 8 then ['\\', 'b']
    else if c as int == 9 then ['\\', 't']
    else if c as int == 10 then ['\\', 'n']
    else if c as int == 12 then ['\\', 'f']
    else if c as int == 13 then ['\\', 'r']
    else if c as int < 32 then ['\\', 'u', '0', '0', HexDigit(c as int / 16), HexDigit(c as int % 16)]
    else [c]
  }

  /** JSON string content, without the surrounding quotes. */
  function JsonEscape(s: string): string {
    if s == "" then "" else EscapeChar(s[0]) + JsonEscape(s[1..])
  }

  // ---------- a reader of JSON strings ----------

  function HexValue(c: char): Option<nat> {
    if '0' <= c <= '9' then Some(c as int - '0' as int)
    else if 'a' <= c <= 'f' then Some(c as int - 'a' as int + 10)
    else if 'A' <= c <= 'F' then Some(c as int - 'A' as int + 10)
    else None
  }

  /** The character that four hexadecimal digits name, if they are digits and it is one by itself. */
  function HexChar(a: char, b: char, c: char, d: char): Option<char> {
    var w, x, y, z := HexValue(a), HexValue(b), HexValue(c), HexValue(d);
    if w.None? || x.None? || y.None? || z.None? then None
    else
      var n := ((w.value * 16 + x.value) * 16 + y.value) * 16 + z.value;
      if n < 0xD800 || 0xE000 <= n < 0x1_0000 then Some(n as char) else None
  }

  /** What a two-character escape stands for. */
  function EscapedBy(c: char): Option<char> {
    if c == '"' || c == '\\' || c == '/' then Some(c)
    else if c == 'b' then Some(8 as char)
    else if c == 't' then Some(9 as char)
    else if c == 'n' then Some(10 as char)
    else if c == 'f' then Some(12 as char)
    else if c == 'r' then Some(13 as char)
    else None
  }

  function Before(c: Option<char>, r: Option<(string, string)>): Option<(string, string)> {
    if c.None? || r.None? then None else Some(([c.value] + r.value.0, r.value.1))
  }

  /** Reads a JSON string from behind its opening quote: its value, and what follows its closing quote
      (section 7 of RFC 8259). A bare control character is no JSON. */
  function ReadString(t: string): Option<(string, string)>
    decreases |t|
  {
    if t == "" || t[0] as int < 32 then None
    else if t[0] == '"' then Some(("", t[1..]))
    else if t[0] != '\\' then Before(Some(t[0]), ReadString(t[1..]))
    else if |t| >= 6 && t[1] == 'u' then Before(HexChar(t[2], t[3], t[4], t[5]), ReadString(t[6..]))
    else if |t| >= 2 then Before(EscapedBy(t[1]), ReadString(t[2..]))
    else None
  }

  lemma {:induction false} EscapeReadsBack(c: char, rest: string)
    ensures ReadString(EscapeChar(c) + rest) == Before(Some(c), ReadString(rest))
  {
    var e := EscapeChar(c);
    var t := e + rest;
    assert t[0] == e[0] && t[|e|..] == rest;
    if |e| == 6 {
      HexReadsBack(c);
      assert t[1] == e[1] && t[2] == e[2] && t[3] == e[3] && t[4] == e[4] && t[5] == e[5];
    } else if |e| == 2 {
      assert t[1] == e[1];
    }
  }

  lemma {:induction false} HexReadsBack(c: char)
    requires c as int < 32
    ensures HexChar('0', '0', HexDigit(c as int / 16), HexDigit(c as int % 16)) == Some(c)
  {
  }

  /** Escaping makes JSON string content: put between quotes, a reader gets back exactly the text, and goes on
      behind the closing quote. */
  lemma {:induction false} EscapedTextReadsBack(s: string, rest: string)
    ensures ReadString(JsonEscape(s) + "\"" + rest) == Some((s, rest))
  {
    hide EscapeChar, Before;
    if s == "" {
      assert "" + "\"" + rest == "\"" + rest && ("\"" + rest)[1..] == rest;
    } else {
      var tail := JsonEscape(s[1..]) + "\"" + rest;
      EscapedTextReadsBack(s[1..], rest);
      EscapeReadsBack(s[0], tail);
      assert JsonEscape(s) + "\"" + rest == EscapeChar(s[0]) + tail;
      BeforeSome(s[0], s[1..], rest);
      assert [s[0]] + s[1..] == s;
    }
  }

  lemma {:induction false} BeforeSome(c: char, s: string, rest: string)
    ensures Before(Some(c), Some((s, rest))) == Some(([c] + s, rest))
  {
  }

  /** Escaped text holds no control character, and every quote in it stands behind a backslash. */
  lemma {:induction false} EscapedTextIsClean(s: string)
    ensures forall i | 0 <= i < |JsonEscape(s)| :: JsonEscape(s)[i] as int >= 32
    ensures forall i | 0 <= i < |JsonEscape(s)| && JsonEscape(s)[i] == '"' :: i > 0 && JsonEscape(s)[i - 1] == '\\'
  {
    if s != "" {
      var head, tail := EscapeChar(s[0]), JsonEscape(s[1..]);
      EscapedTextIsClean(s[1..]);
      CharIsClean(s[0]);
      forall i | 0 <= i < |JsonEscape(s)|
        ensures JsonEscape(s)[i] as int >= 32
        ensures JsonEscape(s)[i] == '"' ==> i > 0 && JsonEscape(s)[i - 1] == '\\'
      {
        if i >= |head| {
          assert JsonEscape(s)[i] == tail[i - |head|];
        }
      }
    }
  }

  lemma {:induction false} CharIsClean(c: char)
    ensures EscapeChar(c) != ""
    ensures forall i | 0 <= i < |EscapeChar(c)| :: EscapeChar(c)[i] as int >= 32
    ensures forall i | 0 <= i < |EscapeChar(c)| && EscapeChar(c)[i] == '"' :: i > 0 && EscapeChar(c)[i - 1] == '\\'
  {
  }

  // ---------- rendering ----------

  function Render(r: Rendering, s: string): string {
    match r
    case Verbatim => s
    case JsonEscaped => JsonEscape(s)
  }

  function ErrorCategory(span: string): string {
    match ParseTokenSpan(span)
    case Some((category, _)) => category
    case None => "unknown"
  }

  /** Detokenization read off the text from left to right, counting spans from `index`. */
  function DetokenizeFrom(k: Sealer, r: Rendering, text: string, index: nat): Result<string, DetokenizeError>
    decreases |text|
  {
    if text == "" then Ok("")
    else
      var n := SpanLen(text);
      if n > 0 then
        match ResolveSpan(k, text[..n])
        case None => Err(VerificationFailed(ErrorCategory(text[..n]), index))
        case Some(plaintext) => Prepend(Render(r, plaintext), DetokenizeFrom(k, r, text[n..], index + 1))
      else
        Prepend([text[0]], DetokenizeFrom(k, r, text[1..], index))
  }

  function Prepend(head: string, tail: Result<string, DetokenizeError>): Result<string, DetokenizeError> {
    match tail
    case Ok(s) => Ok(head + s)
    case Err(e) => Err(e)
  }

  function Detokenize(k: Sealer, r: Rendering, text: string): Result<string, DetokenizeError> {
    DetokenizeFrom(k, r, text, 0)
  }

  /** The recovered text, when every span resolves. */
  function Recovered(k: Sealer, r: Rendering, text: string): Option<string> {
    Detokenize(k, r, text).ToOption()
  }

  function CountSpans(text: string): nat
    decreases |text|
  {
    if text == "" then 0
    else if SpanLen(text) > 0 then 1 + CountSpans(text[SpanLen(text)..])
    else CountSpans(text[1..])
  }

  // ---------- the engine's loop ----------

  /** The leftmost span at or after `from`, as the regular expression search reports it. */
  method FindSpan(text: string, from: nat) returns (found: Option<(nat, nat)>)
    requires from <= |text|
    ensures found.None? ==> forall i | from <= i < |text| :: SpanLen(text[i..]) == 0
    ensures found.Some? ==>
              var (start, end) := found.value;
              && from <= start < end <= |text|
              && end == start + SpanLen(text[start..])
              && forall i | from <= i < start :: SpanLen(text[i..]) == 0
  {
    var start := from;
    while start < |text|
      invariant from <= start <= |text|
      invariant forall i | from <= i < start :: SpanLen(text[i..]) == 0
    {
      var n := SpanLen(text[start..]);
      if n > 0 {
        return Some((start, start + n));
      }
      start := start + 1;
    }
    return None;
  }

  lemma {:induction false} PlainStep(k: Sealer, r: Rendering, text: string, from: nat, index: nat)
    requires from < |text| && SpanLen(text[from..]) == 0
    ensures DetokenizeFrom(k, r, text[from..], index) == Prepend([text[from]], DetokenizeFrom(k, r, text[from + 1..], index))
  {
    hide SpanLen, ResolveSpan, Render, ErrorCategory;
    assert text[from..][1..] == text[from + 1..];
  }

  lemma {:induction false} SkipPlain(k: Sealer, r: Rendering, text: string, from: nat, to: nat, index: nat)
    requires from <= to <= |text|
    requires forall i | from <= i < to :: SpanLen(text[i..]) == 0
    ensures DetokenizeFrom(k, r, text[from..], index)
            == Prepend(text[from..to], DetokenizeFrom(k, r, text[to..], index))
    decreases |text| - from
  {
    hide SpanLen, DetokenizeFrom, Prepend;
    var rest := DetokenizeFrom(k, r, text[to..], index);
    if from < to {
      PlainStep(k, r, text, from, index);
      SkipPlain(k, r, text, from + 1, to, index);
      assert text[from..to] == [text[from]] + text[from + 1..to];
      PrependTwice([text[from]], text[from + 1..to], rest);
    } else {
      assert text[from..to] == "";
      PrependNothing(rest);
    }
  }

  /** A span at the front is replaced by its value, or ends the run. */
  lemma {:induction false} SpanStep(k: Sealer, r: Rendering, text: string, start: nat, end: nat, index: nat)
    requires start < end <= |text| && end == start + SpanLen(text[start..])
    ensures var p := ResolveSpan(k, text[start..end]);
            DetokenizeFrom(k, r, text[start..], index) ==
            if p.None? then Err(VerificationFailed(ErrorCategory(text[start..end]), index))
            else Prepend(Render(r, p.value), DetokenizeFrom(k, r, text[end..], index + 1))
  {
    hide SpanLen, ResolveSpan, Render, ErrorCategory;
    assert text[start..][..end - start] == text[start..end];
    assert text[start..][end - start..] == text[end..];
  }

  /** The text after the last span is kept as it is. */
  lemma {:induction false} PlainTail(k: Sealer, r: Rendering, text: string, from: nat, index: nat)
    requires from <= |text| && forall i | from <= i < |text| :: SpanLen(text[i..]) == 0
    ensures DetokenizeFrom(k, r, text[from..], index) == Ok(text[from..])
  {
    hide SpanLen;
    SkipPlain(k, r, text, from, |text|, index);
    assert text[from..|text|] == text[from..] && text[|text|..] == "";
    assert text[from..] + "" == text[from..];
  }

  /** The engine's loop over the matches of the span expression. */
  method DetokenizeTextWith(k: Sealer, r: Rendering, text: string)
    returns (res: Result<string, DetokenizeError>)
    ensures res == Detokenize(k, r, text)
  {
    hide DetokenizeFrom, SpanLen, ResolveSpan, Render, ErrorCategory;
    var result := "";
    var last := 0;
    var index := 0;
    assert text[0..] == text;
    PrependNothing(Detokenize(k, r, text));
    while true
      invariant 0 <= last <= |text|
      invariant Detokenize(k, r, text) == Prepend(result, DetokenizeFrom(k, r, text[last..], index))
      decreases |text| - last
    {
      var found := FindSpan(text, last);
      if found.None? {
        PlainTail(k, r, text, last, index);
        return Ok(result + text[last..]);
      }
      var (start, end) := found.value;
      SkipPlain(k, r, text, last, start, index);
      SpanStep(k, r, text, start, end, index);
      var plaintext := ResolveSpan(k, text[start..end]);
      if plaintext.None? {
        return Err(VerificationFailed(ErrorCategory(text[start..end]), index));
      }
      PrependTwice(result, text[last..start], DetokenizeFrom(k, r, text[start..], index));
      PrependTwice(result + text[last..start], Render(r, plaintext.value), DetokenizeFrom(k, r, text[end..], index + 1));
      result := result + text[last..start] + Render(r, plaintext.value);
      last := end;
      index := index + 1;
    }
  }

  lemma {:induction false} PrependNothing(x: Result<string, DetokenizeError>)
    ensures Prepend("", x) == x
  {
    if x.Ok? {
      assert "" + x.value == x.value;
    }
  }

  lemma {:induction false} PrependTwice(a: string, b: string, x: Result<string, DetokenizeError>)
    ensures Prepend(a, Prepend(b, x)) == Prepend(a + b, x)
  {
    if x.Ok? {
      assert a + (b + x.value) == (a + b) + x.value;
    }
  }

  // ---------- detokenization and concatenation ----------

  /** Detokenizing two texts one after the other is detokenizing them together, as long as no
      span straddles the seam; the second run counts its spans from where the first stopped. */
  lemma {:induction false} DetokenizeConcat(k: Sealer, r: Rendering, a: string, b: string, index: nat)
    requires NoSpanStraddles(a, b)
    ensures DetokenizeFrom(k, r, a + b, index) ==
            match DetokenizeFrom(k, r, a, index)
            case Err(e) => Err(e)
            case Ok(x) => Prepend(x, DetokenizeFrom(k, r, b, index + CountSpans(a)))
    decreases |a|
  {
    hide SpanLen, ResolveSpan, Render, ErrorCategory;
    if a == "" {
      assert a + b == b;
      PrependNothing(DetokenizeFrom(k, r, b, index));
    } else {
      SpanLenOfConcat(a, b);
      var n := SpanLen(a);
      var step := if n > 0 then n else 1;
      assert (a + b)[..step] == a[..step] && (a + b)[step..] == a[step..] + b;
      NoSpanStraddlesRest(a, b, step);
      if n > 0 {
        DetokenizeConcat(k, r, a[n..], b, index + 1);
        var p := ResolveSpan(k, a[..n]);
        var tail := DetokenizeFrom(k, r, a[n..], index + 1);
        if p.Some? && tail.Ok? {
          PrependTwice(Render(r, p.value), tail.value, DetokenizeFrom(k, r, b, index + CountSpans(a)));
        }
      } else {
        DetokenizeConcat(k, r, a[1..], b, index);
        var tail := DetokenizeFrom(k, r, a[1..], index);
        if tail.Ok? {
          PrependTwice([a[0]], tail.value, DetokenizeFrom(k, r, b, index + CountSpans(a)));
        }
      }
    }
  }

  /** The starting count only shows in an error's index. */
  lemma {:induction false} CountOnlyInErrors(k: Sealer, r: Rendering, text: string, i: nat, j: nat)
    ensures DetokenizeFrom(k, r, text, i).ToOption() == DetokenizeFrom(k, r, text, j).ToOption()
    decreases |text|
  {
    if text != "" {
      var n := SpanLen(text);
      if n > 0 {
        CountOnlyInErrors(k, r, text[n..], i + 1, j + 1);
      } else {
        CountOnlyInErrors(k, r, text[1..], i, j);
      }
    }
  }

  lemma {:induction false} RecoveredConcat(k: Sealer, r: Rendering, a: string, b: string)
    requires NoSpanStraddles(a, b)
    ensures Recovered(k, r, a + b) == Join(Recovered(k, r, a), Recovered(k, r, b))
  {
    hide DetokenizeFrom, SpanLen;
    DetokenizeConcat(k, r, a, b, 0);
    CountOnlyInErrors(k, r, b, 0, CountSpans(a));
  }

  /** A refused text names its first span that does not resolve: its category, and how many spans come before
      it, all of which do resolve. */
  lemma {:induction false} ErrorNamesFirstFailure(k: Sealer, r: Rendering, text: string, index: nat)
    returns (i: nat, category: string, payload: string)
    requires DetokenizeFrom(k, r, text, index).Err?
    ensures i <= |text| && IsCategory(category) && IsPayload(payload) && SpanOf(category, payload) <= text[i..]
    ensures k.decode(payload).None? || k.open(category, k.decode(payload).value).None?
    ensures DetokenizeFrom(k, r, text[..i], index).Ok?
    ensures DetokenizeFrom(k, r, text, index).error == VerificationFailed(category, index + CountSpans(text[..i]))
    decreases |text|
  {
    hide SpanLen, SpanOf, Render, ErrorCategory, ResolveSpan, IsCategory, IsPayload;
    var n := SpanLen(text);
    if n > 0 && ResolveSpan(k, text[..n]).None? {
      i := 0;
      category, payload := FailingSpan(k, text[..n]);
      assert text[..n] <= text[0..] && text[..0] == "";
    } else {
      var step := if n > 0 then n else 1;
      var j;
      j, category, payload := ErrorNamesFirstFailure(k, r, text[step..], if n > 0 then index + 1 else index);
      i := step + j;
      assert text[step..][j..] == text[i..];
      assert text[..i][step..] == text[step..][..j] && text[..i][..step] == text[..step];
      FrontOfPrefix(text, i);
    }
  }

  lemma {:induction false} FailingSpan(k: Sealer, span: string) returns (category: string, payload: string)
    requires IsSpan(span) && ResolveSpan(k, span).None?
    ensures IsCategory(category) && IsPayload(payload) && span == SpanOf(category, payload)
    ensures k.decode(payload).None? || k.open(category, k.decode(payload).value).None?
    ensures ErrorCategory(span) == category
  {
    category, payload := SpanParts(span);
    ParseInvertsPrint(category, payload);
  }

  lemma {:induction false} FrontOfPrefix(text: string, i: nat)
    requires text != "" && (if SpanLen(text) > 0 then SpanLen(text) else 1) <= i <= |text|
    ensures SpanLen(text[..i]) == SpanLen(text)
  {
    hide SpanLen;
    var n := SpanLen(text);
    if n > 0 {
      assert text[..i][..n] == text[..n];
      SpanLenUnique(text[..i], n);
    } else {
      ShorterHasNoSpan(text, i);
    }
  }

  lemma {:induction false} SpanFreeRecovers(k: Sealer, r: Rendering, t: string, i: nat)
    requires forall j | 0 <= j < |t| :: SpanLen(t[j..]) == 0
    ensures DetokenizeFrom(k, r, t, i) == Ok(t)
  {
    hide SpanLen;
    if t != "" {
      assert t[0..] == t;
      forall j | 0 <= j < |t[1..]| ensures SpanLen(t[1..][j..]) == 0 {
        assert t[1..][j..] == t[j + 1..];
      }
      SpanFreeRecovers(k, r, t[1..], i);
      assert t == [t[0]] + t[1..];
    }
  }
}
