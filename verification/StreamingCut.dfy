/** Where a stream of text may be cut so that rewriting the parts is rewriting the whole. */
module StreamingCut {
  import opened Text
  import opened TokenSpan
  import opened SpanWalker
  import opened Sealing
  import opened Detokenize
  import opened Keywords
  import opened Unmasking

  const MAX_TOKEN_SPAN_LEN: nat := 4096

  /** The inbound rewrite: unmask every keyword, then detokenize, fail closed. */
  function Transform(k: Sealer, ks: seq<Keyword>, r: Rendering, text: string): Result<string, DetokenizeError> {
    Detokenize.Detokenize(k, r, Unmask(ks, r, text))
  }

  method UnmaskAndDetokenize(k: Sealer, ks: seq<Keyword>, r: Rendering, text: string)
    returns (res: Result<string, DetokenizeError>)
    requires forall kw | kw in ks :: kw.Valid()
    ensures res == Transform(k, ks, r, text)
  {
    var unmasked := UnmaskKeywordsText(ks, r, text);
    res := DetokenizeTextWith(k, r, unmasked);
  }

  /** The rewritten text, when every span resolves. */
  function Rewritten(k: Sealer, ks: seq<Keyword>, r: Rendering, text: string): Option<string> {
    Transform(k, ks, r, text).ToOption()
  }

  // ---------- the cut ----------

  /** A non-empty proper prefix of the alias. */
  predicate IsPartialAlias(tail: string, alias: string, caseSensitive: bool) {
    0 < |tail| < |alias| && SameText(tail, alias[..|tail|], caseSensitive)
  }

  /** Where the earliest tail that may still grow into the alias begins, or the length. */
  function AliasPrefixStartFrom(text: string, alias: string, cs: bool, pos: nat): (i: nat)
    requires pos <= |text|
    ensures pos <= i <= |text|
    ensures forall j | pos <= j < i :: !IsPartialAlias(text[j..], alias, cs)
    ensures i < |text| ==> IsPartialAlias(text[i..], alias, cs)
    decreases |text| - pos
  {
    if pos == |text| || IsPartialAlias(text[pos..], alias, cs) then pos
    else AliasPrefixStartFrom(text, alias, cs, pos + 1)
  }

  function AliasPrefixStart(text: string, alias: string, cs: bool): (i: nat)
    ensures i <= |text|
    ensures forall j | 0 <= j < i :: !IsPartialAlias(text[j..], alias, cs)
    ensures i < |text| ==> IsPartialAlias(text[i..], alias, cs)
  {
    AliasPrefixStartFrom(text, alias, cs, 0)
  }

  function SpanCut(text: string): (i: nat)
    ensures i <= |text|
  {
    match HeldSpan(text)
    case Some(start) => if |text| - start <= MAX_TOKEN_SPAN_LEN then start else |text|
    case None => |text|
  }

  function Min(a: nat, b: nat): nat { if a <= b then a else b }

  /** The earliest of the span's and the aliases' cuts. */
  function SafeLen(text: string, ks: seq<Keyword>): (i: nat)
    ensures i <= |text|
  {
    if ks == [] then SpanCut(text)
    else Min(AliasPrefixStart(text, ks[0].alias, ks[0].caseSensitive), SafeLen(text, ks[1..]))
  }

  method SuffixIsProperAliasPrefix(tail: string, alias: string, cs: bool) returns (b: bool)
    ensures b == IsPartialAlias(tail, alias, cs)
  {
    if tail == "" || |tail| >= |alias| {
      return false;
    }
    var i := 0;
    while i < |tail|
      invariant 0 <= i <= |tail|
      invariant forall j | 0 <= j < i :: SameChar(tail[j], alias[j], cs)
    {
      if !SameChar(tail[i], alias[i], cs) {
        assert alias[..|tail|][i] == alias[i];
        return false;
      }
      i := i + 1;
    }
    return true;
  }

  /** The engine looks only at the last `|alias| - 1` positions; no earlier one can qualify. */
  method FindAliasPrefixStart(text: string, alias: string, cs: bool) returns (start: nat)
    ensures start == AliasPrefixStart(text, alias, cs)
  {
    var whole := AliasPrefixStart(text, alias, cs);
    if |alias| < 2 {
      return |text|;
    }
    var window := if |text| >= |alias| - 1 then |text| - (|alias| - 1) else 0;
    for pos := window to |text|
      invariant forall j | 0 <= j < pos :: !IsPartialAlias(text[j..], alias, cs)
    {
      var partial := SuffixIsProperAliasPrefix(text[pos..], alias, cs);
      if partial {
        return pos;
      }
    }
    return |text|;
  }

  /** The engine's running minimum. */
  method SafePrefixLen(text: string, ks: seq<Keyword>) returns (safe: nat)
    ensures safe == SafeLen(text, ks)
  {
    hide SafeLen, HeldSpan;
    safe := |text|;
    var held := IncompleteTokenSpanStart(text);
    if held.Some? && |text| - held.value <= MAX_TOKEN_SPAN_LEN {
      safe := Min(safe, held.value);
    }
    assert ks[0..] == ks;
    SafeLenIsMinimum(text, ks);
    assert safe == SpanCut(text);
    for i := 0 to |ks|
      invariant safe <= SpanCut(text) && Min(safe, SafeLen(text, ks[i..])) == SafeLen(text, ks)
    {
      var a := FindAliasPrefixStart(text, ks[i].alias, ks[i].caseSensitive);
      SafeLenStep(text, ks, i);
      safe := Min(safe, a);
    }
    NoKeywordCut(text, ks[|ks|..]);
  }

  lemma {:induction false} SafeLenStep(text: string, ks: seq<Keyword>, i: nat)
    requires i < |ks|
    ensures SafeLen(text, ks[i..]) == Min(AliasPrefixStart(text, ks[i].alias, ks[i].caseSensitive), SafeLen(text, ks[i + 1..]))
  {
    assert ks[i..][1..] == ks[i + 1..];
  }

  lemma {:induction false} NoKeywordCut(text: string, ks: seq<Keyword>)
    requires ks == []
    ensures SafeLen(text, ks) == SpanCut(text)
  {
  }

  /** The cut is one of the candidates, and none of them is earlier. */
  lemma {:induction false} SafeLenIsMinimum(text: string, ks: seq<Keyword>)
    ensures SafeLen(text, ks) <= SpanCut(text)
    ensures forall kw | kw in ks :: SafeLen(text, ks) <= AliasPrefixStart(text, kw.alias, kw.caseSensitive)
    ensures SafeLen(text, ks) == SpanCut(text)
            || exists kw :: kw in ks && SafeLen(text, ks) == AliasPrefixStart(text, kw.alias, kw.caseSensitive)
  {
    if ks != [] {
      SafeLenIsMinimum(text, ks[1..]);
      assert ks[0] in ks;
    }
  }

  // ---------- when the cut is clean ----------

  /** No proper tail of one alias begins another (or the same) alias. Two aliases are compared
      exactly only when both keywords are. */
  predicate NoOverlap(a: Keyword, b: Keyword) {
    forall n | 0 < n < |a.alias| && n < |b.alias| ::
      !SameText(a.alias[|a.alias| - n..], b.alias[..n], a.caseSensitive && b.caseSensitive)
  }

  ghost predicate OverlapFree(ks: seq<Keyword>) {
    forall a, b | a in ks && b in ks :: NoOverlap(a, b)
  }

  /** A held tail longer than the cap is released; that is harmless unless it does become a span. */
  predicate HeldSpanFits(text: string, more: string) {
    var held := HeldSpan(text);
    held.Some? && |text| - held.value > MAX_TOKEN_SPAN_LEN ==> SpanLen(text[held.value..] + more) == 0
  }

  lemma {:induction false} AliasChars(kw: Keyword, w: string, i: nat)
    requires kw.Valid() && i < |w| <= |kw.alias| && SameText(w, kw.alias[..|w|], kw.caseSensitive)
    ensures IsLetter(w[i]) || IsDigit(w[i])
  {
    assert SameChar(w[i], kw.alias[i], kw.caseSensitive);
  }

  /** Whatever the cut holds back begins with `[` and is viable, or is part of an alias. */
  lemma {:induction false} HeldTail(text: string, ks: seq<Keyword>)
    requires SafeLen(text, ks) < |text|
    ensures var tail := text[SafeLen(text, ks)..];
            || (IsViable(tail) && |tail| <= MAX_TOKEN_SPAN_LEN)
            || exists kw :: kw in ks && IsPartialAlias(tail, kw.alias, kw.caseSensitive)
  {
    hide SafeLen, SameText, IsViable, IsPartialAlias;
    SafeLenIsMinimum(text, ks);
  }

  lemma {:induction false} SpanAcrossCut(text: string, more: string, ks: seq<Keyword>, i: nat, j: nat)
    requires forall kw | kw in ks :: kw.Valid()
    requires HeldSpanFits(text, more)
    requires var safe := SafeLen(text, ks); i < safe && 0 < j <= |text[safe..] + more|
    ensures var safe := SafeLen(text, ks); !IsSpan(text[..safe][i..] + (text[safe..] + more)[..j])
  {
    hide SafeLen, SameText, HeldSpan, SpanLen, LastOpen;
    var safe := SafeLen(text, ks);
    SafeLenIsMinimum(text, ks);
    var w := text[..safe][i..] + (text[safe..] + more)[..j];
    if IsSpan(w) {
      SpanShape(w);
      var whole := text[i..] + more;
      assert w == whole[..|w|];
      if i + |w| > |text| {
        SpanPrefixesAreViable(w, |text| - i);
        assert w[..|text| - i] == text[i..];
        OnlyOneViableTail(text, i);
        SpanLenUnique(whole, |w|);
      } else {
        HeldTail(text, ks);
        var tail := text[safe..];
        assert w == text[i..i + |w|];
        var last := i + |w| - 1;
        assert w[|w| - 1] == tail[last - safe] == ']' && w[safe - i] == tail[0];
        if IsViable(tail) {
          SpanShape(tail);
        } else {
          var kw :| kw in ks && IsPartialAlias(tail, kw.alias, kw.caseSensitive);
          AliasChars(kw, tail, last - safe);
        }
      }
    }
  }

  lemma {:induction false} FoldChain(x: string, a: string, b: string, cx: bool, cy: bool)
    requires SameText(x, a, cx) && SameText(x, b, cy)
    ensures SameText(a, b, cx && cy)
  {
    forall i | 0 <= i < |a| ensures SameChar(a[i], b[i], cx && cy) {
      assert SameChar(x[i], a[i], cx) && SameChar(x[i], b[i], cy);
    }
  }

  /** An occurrence of one alias whose last `n` characters begin a held part of another. */
  lemma {:induction false} OverlapInText(kw: Keyword, other: Keyword, w: string, tail: string, n: nat)
    requires SameText(w, kw.alias, kw.caseSensitive) && IsPartialAlias(tail, other.alias, other.caseSensitive)
    requires 0 < n < |w| == |kw.alias| && n <= |tail| && w[|w| - n..] == tail[..n]
    ensures !NoOverlap(kw, other)
  {
    hide SameText;
    SameTextSlice(w, kw.alias, kw.caseSensitive, |w| - n, |w|);
    SameTextSlice(tail, other.alias[..|tail|], other.caseSensitive, 0, n);
    assert w[|w| - n..|w|] == tail[..n] == tail[0..n];
    assert kw.alias[|w| - n..|w|] == kw.alias[|kw.alias| - n..];
    assert other.alias[..|tail|][0..n] == other.alias[..n];
    FoldChain(tail[..n], kw.alias[|kw.alias| - n..], other.alias[..n], kw.caseSensitive, other.caseSensitive);
  }

  lemma {:induction false} BeginningIsPartial(kw: Keyword, w: string, n: nat)
    requires SameText(w, kw.alias, kw.caseSensitive) && 0 < n < |w|
    ensures IsPartialAlias(w[..n], kw.alias, kw.caseSensitive)
  {
    SameTextSlice(w, kw.alias, kw.caseSensitive, 0, n);
    assert w[0..n] == w[..n] && kw.alias[0..n] == kw.alias[..n];
  }

  lemma {:induction false} HitAcrossCut(text: string, more: string, ks: seq<Keyword>, kw: Keyword, i: nat, j: nat)
    requires OverlapFree(ks) && kw in ks && forall kw | kw in ks :: kw.Valid()
    requires var safe := SafeLen(text, ks); i < safe && 0 < j <= |text[safe..] + more|
    ensures var safe := SafeLen(text, ks);
            !SameText(text[..safe][i..] + (text[safe..] + more)[..j], kw.alias, kw.caseSensitive)
  {
    hide SafeLen, SameText, HeldSpan, IsViable, NoOverlap;
    var safe := SafeLen(text, ks);
    SafeLenIsMinimum(text, ks);
    var w := text[..safe][i..] + (text[safe..] + more)[..j];
    var cs := kw.caseSensitive;
    assert i + |w| > |text| ==> w[..|text| - i] == text[i..];
    if SameText(w, kw.alias, cs) {
      SameSize(w, kw.alias, cs);
      if i + |w| > |text| {
        BeginningIsPartial(kw, w, |text| - i);
      } else {
        HeldTail(text, ks);
        var tail := text[safe..];
        var n := i + |w| - safe;
        assert w[safe - i..] == tail[..n];
        if IsViable(tail) {
          SpanShape(tail);
          assert kw.alias[..|w|] == kw.alias && w[safe - i] == tail[0];
          AliasChars(kw, w, safe - i);
        } else {
          var other :| other in ks && IsPartialAlias(tail, other.alias, other.caseSensitive);
          OverlapInText(kw, other, w, tail, n);
        }
      }
    }
  }

  lemma {:induction false} SameSize(x: string, y: string, cs: bool)
    requires SameText(x, y, cs)
    ensures |x| == |y|
  {
  }

  /** Nothing the rewrite looks for crosses the seam. */
  ghost predicate Clean(ks: seq<Keyword>, r: Rendering, a: string, b: string) {
    && NoSpanStraddles(a, b)
    && forall kw | kw in ks :: NoHitStraddles(kw.Unmasking(r), a, b)
  }

  /** The cut is clean for every continuation. */
  lemma {:induction false} CutIsClean(ks: seq<Keyword>, r: Rendering, text: string, more: string)
    requires OverlapFree(ks) && forall kw | kw in ks :: kw.Valid()
    requires HeldSpanFits(text, more)
    ensures var safe := SafeLen(text, ks); Clean(ks, r, text[..safe], text[safe..] + more)
  {
    hide SafeLen, SameText, HeldSpanFits;
    var safe := SafeLen(text, ks);
    var a, b := text[..safe], text[safe..] + more;
    forall i, j | 0 <= i < |a| && 0 < j <= |b| ensures !IsSpan(a[i..] + b[..j]) {
      SpanAcrossCut(text, more, ks, i, j);
    }
    forall kw | kw in ks ensures NoHitStraddles(kw.Unmasking(r), a, b) {
      forall i, j | 0 <= i < |a| && 0 < j <= |b| ensures !kw.Unmasking(r).Matches(a[i..] + b[..j]) {
        HitAcrossCut(text, more, ks, kw, i, j);
      }
    }
  }

  // ---------- rewriting across a clean seam ----------

  /** What keywords must promise each other: no replacement completes a span, and no replacement of
      an earlier keyword can take part in an alias that is unmasked later. */
  ghost predicate Compatible(ks: seq<Keyword>, r: Rendering) {
    && (forall kw | kw in ks :: SpanNeutral(kw.Unmasking(r)))
    && (forall i, j | 0 <= i < j < |ks| :: Detached(ks[j].Unmasking(r), ks[i].Unmasking(r)))
  }

  lemma {:induction false} CompatibleRest(ks: seq<Keyword>, r: Rendering)
    requires ks != [] && Compatible(ks, r)
    ensures Compatible(ks[1..], r)
    ensures forall kw | kw in ks[1..] :: Detached(kw.Unmasking(r), ks[0].Unmasking(r))
  {
    hide Detached, SpanNeutral;
    forall i, j | 0 <= i < j < |ks[1..]| ensures Detached(ks[1..][j].Unmasking(r), ks[1..][i].Unmasking(r)) {
      assert ks[1..][i] == ks[i + 1] && ks[1..][j] == ks[j + 1];
    }
  }

  lemma {:induction false} UnmaskConcat(ks: seq<Keyword>, r: Rendering, a: string, b: string)
    requires Compatible(ks, r) && Clean(ks, r, a, b)
    ensures Unmask(ks, r, a + b) == Unmask(ks, r, a) + Unmask(ks, r, b)
    ensures NoSpanStraddles(Unmask(ks, r, a), Unmask(ks, r, b))
    decreases |ks|
  {
    hide Detached, SpanNeutral, SubstituteOutsideSpans, NoHitStraddles, NoSpanStraddles;
    if ks != [] {
      var w := ks[0].Unmasking(r);
      var rest := ks[1..];
      assert ks[0] in ks;
      CompatibleRest(ks, r);
      SubstituteConcat(w, a, b);
      NoNewSpanAtSeam(w, a, b);
      var ua, ub := SubstituteOutsideSpans(w, a), SubstituteOutsideSpans(w, b);
      forall kw | kw in rest ensures NoHitStraddles(kw.Unmasking(r), ua, ub) {
        NoNewHitAtSeam(kw.Unmasking(r), w, a, b);
      }
      UnmaskConcat(rest, r, ua, ub);
    }
  }

  /** Across a clean seam the rewrite of the whole is the rewrites of the parts, one after the
      other: both succeed and the texts concatenate, or one fails and so does the whole. */
  lemma {:induction false} RewriteConcat(k: Sealer, ks: seq<Keyword>, r: Rendering, a: string, b: string)
    requires Compatible(ks, r) && Clean(ks, r, a, b)
    ensures Rewritten(k, ks, r, a + b) == Join(Rewritten(k, ks, r, a), Rewritten(k, ks, r, b))
  {
    hide Unmask, Clean, Compatible;
    UnmaskConcat(ks, r, a, b);
    RecoveredConcat(k, r, Unmask(ks, r, a), Unmask(ks, r, b));
  }

  /** The cut theorem: rewriting the safe prefix and then the held tail with whatever follows it
      is rewriting the whole text. */
  lemma {:induction false} CutTheorem(k: Sealer, ks: seq<Keyword>, r: Rendering, text: string, more: string)
    requires OverlapFree(ks) && Compatible(ks, r) && forall kw | kw in ks :: kw.Valid()
    requires HeldSpanFits(text, more)
    ensures var safe := SafeLen(text, ks);
            Rewritten(k, ks, r, text + more)
            == Join(Rewritten(k, ks, r, text[..safe]), Rewritten(k, ks, r, text[safe..] + more))
  {
    hide SafeLen, HeldSpanFits, Clean, Compatible, Rewritten;
    var safe := SafeLen(text, ks);
    CutIsClean(ks, r, text, more);
    RewriteConcat(k, ks, r, text[..safe], text[safe..] + more);
    assert text + more == text[..safe] + (text[safe..] + more);
  }

  /** What the cut holds back cannot be cut again, and is bounded. */
  lemma {:induction false} HeldIsIrreducible(text: string, ks: seq<Keyword>)
    requires forall kw | kw in ks :: kw.Valid()
    ensures var tail := text[SafeLen(text, ks)..]; SafeLen(tail, ks) == 0 && |tail| <= MAX_TOKEN_SPAN_LEN
  {
    hide SafeLen, SameText, IsViable, HeldSpan;
    var tail := text[SafeLen(text, ks)..];
    assert tail[0..] == tail;
    SafeLenIsMinimum(tail, ks);
    if tail != "" {
      HeldTail(text, ks);
      if IsViable(tail) && |tail| <= MAX_TOKEN_SPAN_LEN {
        OnlyOneViableTail(tail, 0);
      } else {
        var kw :| kw in ks && IsPartialAlias(tail, kw.alias, kw.caseSensitive);
        assert AliasPrefixStart(tail, kw.alias, kw.caseSensitive) == 0;
      }
    }
  }
}
