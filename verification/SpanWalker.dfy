/** The hand-written span walker and the search for a tail that may still grow into a span. */
module SpanWalker {
  import opened Text
  import opened TokenSpan

  datatype PrefixScan = Viable | Complete(len: nat) | Invalid

  /** What a reader of the grammar can say about a text that starts with `[`. */
  function Verdict(s: string): PrefixScan {
    if SpanLen(s) > 0 then Complete(SpanLen(s))
    else if IsViable(s) then Viable
    else Invalid
  }

  lemma {:induction false} WalkOneMore(p: Place, s: string, i: nat)
    requires i < |s|
    ensures Walk(p, s[..i + 1]) == Step(Walk(p, s[..i]), s[i])
  {
    assert s[..i + 1] == s[..i] + [s[i]];
    WalkConcat(p, s[..i], [s[i]]);
    assert [s[i]][1..] == "";
  }

  /** A text still inside a span at its end holds no complete span at its front. */
  lemma {:induction false} ViableHasNoSpan(s: string)
    requires IsViable(s)
    ensures SpanLen(s) == 0 && Verdict(s) == Viable
  {
    var n := SpanLen(s);
    if n > 0 {
      assert s == s[..n] + s[n..];
      WalkConcat(Before, s[..n], s[n..]);
      WalkDead(s[n..]);
    }
  }

  lemma {:induction false} DeadEndIsInvalid(s: string, i: nat)
    requires i < |s| && Walk(Before, s[..i]).Inside() && Walk(Before, s[..i + 1]) == Dead
    ensures Verdict(s) == Invalid
  {
    assert s == s[..i + 1] + s[i + 1..];
    WalkConcat(Before, s[..i + 1], s[i + 1..]);
    WalkDead(s[i + 1..]);
    var n := SpanLen(s);
    if 0 < n <= i {
      assert s[..i] == s[..n] + s[n..i];
      WalkConcat(Before, s[..n], s[n..i]);
      WalkDead(s[n..i]);
    } else if n > i {
      assert s[..n] == s[..i + 1] + s[i + 1..n];
      WalkConcat(Before, s[..i + 1], s[i + 1..n]);
      WalkDead(s[i + 1..n]);
    }
  }

  /** The walker of the engine, loop for loop; its answer is the grammar's own verdict. */
  method SpanPrefixScan(bytes: string) returns (r: PrefixScan)
    requires bytes != "" && bytes[0] == '['
    ensures r == Verdict(bytes)
  {
    WalkOneMore(Before, bytes, 0);
    var i := 1;
    var categoryStart := i;
    while i < |bytes| && (IsUpper(bytes[i]) || IsDigit(bytes[i]) || bytes[i] == '_')
      invariant 1 <= i <= |bytes|
      invariant Walk(Before, bytes[..i]) == if i == categoryStart then CategoryStart else InCategory
    {
      WalkOneMore(Before, bytes, i);
      i := i + 1;
    }
    if i >= |bytes| {
      assert bytes[..i] == bytes;
      ViableHasNoSpan(bytes);
      return Viable;
    }
    WalkOneMore(Before, bytes, i);
    if bytes[i] != ':' || i == categoryStart {
      DeadEndIsInvalid(bytes, i);
      return Invalid;
    }
    i := i + 1;
    for k := 0 to |MARKER|
      invariant 1 <= i <= |bytes|
      invariant Walk(Before, bytes[..i]) == if k < |MARKER| then InMarker(k) else PayloadStart
    {
      if i >= |bytes| {
        assert bytes[..i] == bytes;
        ViableHasNoSpan(bytes);
        return Viable;
      }
      WalkOneMore(Before, bytes, i);
      if bytes[i] != MARKER[k] {
        DeadEndIsInvalid(bytes, i);
        return Invalid;
      }
      i := i + 1;
    }
    var payloadStart := i;
    while i < |bytes| && (IsLetter(bytes[i]) || IsDigit(bytes[i]) || bytes[i] == '_' || bytes[i] == '-')
      invariant payloadStart <= i <= |bytes|
      invariant Walk(Before, bytes[..i]) == if i == payloadStart then PayloadStart else InPayload
    {
      WalkOneMore(Before, bytes, i);
      i := i + 1;
    }
    if i >= |bytes| {
      assert bytes[..i] == bytes;
      ViableHasNoSpan(bytes);
      return Viable;
    }
    WalkOneMore(Before, bytes, i);
    if bytes[i] == ']' && i > payloadStart {
      SpanLenUnique(bytes, i + 1);
      return Complete(i + 1);
    }
    DeadEndIsInvalid(bytes, i);
    return Invalid;
  }

  /** The verdict in the grammar's terms: complete with exactly the one span a text can start
      with, viable exactly for a proper prefix of some span, and invalid otherwise. */
  lemma {:induction false} VerdictDecidesGrammar(s: string)
    requires s != ""
    ensures forall n | 0 <= n <= |s| :: Verdict(s) == Complete(n) <==> IsSpan(s[..n])
    ensures Verdict(s) == Viable <==> exists t :: t != "" && IsSpan(s + t)
  {
    forall n | 0 <= n <= |s| && IsSpan(s[..n]) ensures Verdict(s) == Complete(n) {
      SpanLenUnique(s, n);
    }
    ViableIffProperPrefix(s);
    if IsViable(s) {
      ViableHasNoSpan(s);
    }
  }

  // ---------- the held tail ----------

  /** Position of the last `[`, or the length when there is none. */
  function LastOpen(s: string): (i: nat)
    ensures i <= |s| && (i < |s| ==> s[i] == '[')
    ensures forall j | 0 <= j < |s| && (i < j || i == |s|) :: s[j] != '['
  {
    if s == "" then 0
    else
      var m := LastOpen(s[1..]);
      if m < |s| - 1 then m + 1
      else if s[0] == '[' then 0
      else |s|
  }

  /** Where the only tail that could still grow into a span begins. */
  function HeldSpan(s: string): Option<nat> {
    var i := LastOpen(s);
    if i < |s| && IsViable(s[i..]) then Some(i) else None
  }

  /** A text has at most one viable tail; it starts at the last `[`. */
  lemma {:induction false} OnlyOneViableTail(s: string, k: nat)
    requires k <= |s| && IsViable(s[k..])
    ensures HeldSpan(s) == Some(k) && k == LastOpen(s)
  {
    hide IsViable;
    SpanShape(s[k..]);
    forall j | k < j < |s| ensures s[j] != '[' {
      assert s[j] == s[k..][j - k];
    }
    assert s[k] == '[';
  }

  lemma {:induction false} HeldSpanIsViable(text: string, s: nat)
    requires HeldSpan(text) == Some(s)
    ensures s < |text| && IsViable(text[s..]) && text[s] == '['
  {
    SpanShape(text[s..]);
  }

  lemma {:induction false} NotViable(s: string, start: nat)
    requires start < |s| && !Verdict(s[start..]).Viable?
    ensures !IsViable(s[start..])
  {
    if IsViable(s[start..]) {
      ViableHasNoSpan(s[start..]);
    }
  }

  lemma {:induction false} InsideSpanNotViable(s: string, start: nat, i: nat)
    requires start < |s| && start < i < start + SpanLen(s[start..])
    ensures i <= |s| && !IsViable(s[i..])
  {
    var w := s[start..];
    SpanShape(w[..SpanLen(w)]);
    assert w[..SpanLen(w)][i - start] == s[i] && s[i] != '[';
    assert i < |s| && s[i..][0] == s[i];
    if IsViable(s[i..]) {
      SpanShape(s[i..]);
    }
  }

  /** The engine's left-to-right search, which skips complete spans. */
  method IncompleteTokenSpanStart(text: string) returns (r: Option<nat>)
    ensures r == HeldSpan(text)
  {
    hide IsViable, SpanLen;
    var pos := 0;
    while true
      invariant 0 <= pos <= |text|
      invariant forall i | 0 <= i < pos :: !IsViable(text[i..])
      decreases |text| - pos
    {
      var start := pos;
      while start < |text| && text[start] != '['
        invariant pos <= start <= |text|
        invariant forall i | 0 <= i < start :: !IsViable(text[i..])
      {
        if IsViable(text[start..]) {
          SpanShape(text[start..]);
        }
        start := start + 1;
      }
      if start >= |text| {
        return None;
      }
      var scan := SpanPrefixScan(text[start..]);
      match scan {
        case Viable =>
          OnlyOneViableTail(text, start);
          return Some(start);
        case Complete(len) =>
          NotViable(text, start);
          forall i | start < i < start + len ensures !IsViable(text[i..]) {
            InsideSpanNotViable(text, start, i);
          }
          pos := start + len;
        case Invalid =>
          NotViable(text, start);
          pos := start + 1;
      }
    }
  }
}
