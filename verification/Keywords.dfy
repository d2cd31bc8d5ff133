/** Keyword masking and unmasking: case-pattern preserving substitution of a needle. */
module Keywords {
  import opened Text
  import opened TokenSpan
  import opened Segments
  import opened Detokenize

  // ---------- letter case ----------

  datatype CasePattern = Lowercase | Uppercase | Title | Mixed

  predicate HasLetter(s: string) { exists i | 0 <= i < |s| :: IsLetter(s[i]) }

  function DetectCasePattern(s: string): CasePattern {
    if !HasLetter(s) then Mixed
    else if forall i | 0 <= i < |s| && IsLetter(s[i]) :: IsUpper(s[i]) then Uppercase
    else if forall i | 0 <= i < |s| && IsLetter(s[i]) :: IsLower(s[i]) then Lowercase
    else if IsUpper(s[0]) || !IsLetter(s[0]) then
      if forall i | 1 <= i < |s| && IsLetter(s[i]) :: IsLower(s[i]) then Title else Mixed
    else Mixed
  }

  function Lower(s: string): string {
    seq(|s|, i requires 0 <= i < |s| => ToLower(s[i]))
  }

  function Upper(s: string): string {
    seq(|s|, i requires 0 <= i < |s| => ToUpper(s[i]))
  }

  function ApplyCasePattern(s: string, p: CasePattern): string {
    match p
    case Lowercase => Lower(s)
    case Uppercase => Upper(s)
    case Title => if s == "" then "" else [ToUpper(s[0])] + Lower(s[1..])
    case Mixed => s
  }

  // ---------- matching ----------

  predicate SameChar(c: char, d: char, caseSensitive: bool) {
    if caseSensitive then c == d else ToLower(c) == ToLower(d)
  }

  predicate SameText(x: string, y: string, caseSensitive: bool) {
    |x| == |y| && forall i | 0 <= i < |x| :: SameChar(x[i], y[i], caseSensitive)
  }

  lemma {:induction false} SameTextSlice(x: string, y: string, cs: bool, i: nat, j: nat)
    requires SameText(x, y, cs) && i <= j <= |x|
    ensures SameText(x[i..j], y[i..j], cs)
  {
    forall k | 0 <= k < j - i ensures SameChar(x[i..j][k], y[i..j][k], cs) {
      assert x[i..j][k] == x[i + k] && y[i..j][k] == y[i + k];
    }
  }

  lemma {:induction false} ExactIsEqual(x: string, y: string)
    ensures SameText(x, y, true) <==> x == y
  {
  }

  // ---------- substitution ----------

  /** One direction of a keyword: what is looked for, what stands in for it, and how it is written. */
  datatype Swap = Swap(needle: string, replacement: string, caseSensitive: bool, rendering: Rendering) {
    predicate Matches(found: string) {
      SameText(found, needle, caseSensitive)
    }

    /** Whether an occurrence starts at the front of `t`. */
    predicate Hit(t: string) {
      needle != "" && |needle| <= |t| && Matches(t[..|needle|])
    }

    /** What an occurrence is replaced by. */
    function Shaped(found: string): string {
      Render(rendering, if caseSensitive then replacement else ApplyCasePattern(replacement, DetectCasePattern(found)))
    }
  }

  /** Left-to-right replacement of every occurrence. */
  function Substitute(w: Swap, t: string): string
    decreases |t|
  {
    if t == "" then ""
    else if w.Hit(t) then w.Shaped(t[..|w.needle|]) + Substitute(w, t[|w.needle|..])
    else [t[0]] + Substitute(w, t[1..])
  }

  /** The same, stepping over token spans. */
  function SubstituteOutsideSpans(w: Swap, t: string): string
    decreases |t|
  {
    if t == "" then ""
    else if SpanLen(t) > 0 then t[..SpanLen(t)] + SubstituteOutsideSpans(w, t[SpanLen(t)..])
    else if w.Hit(t) then w.Shaped(t[..|w.needle|]) + SubstituteOutsideSpans(w, t[|w.needle|..])
    else [t[0]] + SubstituteOutsideSpans(w, t[1..])
  }

  predicate OccursAt(text: string, i: nat, needle: string, caseSensitive: bool) {
    i + |needle| <= |text| && SameText(text[i..i + |needle|], needle, caseSensitive)
  }

  lemma {:induction false} HitIsOccurrence(w: Swap, t: string, i: nat)
    requires i <= |t|
    ensures w.Hit(t[i..]) <==> w.needle != "" && OccursAt(t, i, w.needle, w.caseSensitive)
  {
    if i + |w.needle| <= |t| {
      assert t[i..][..|w.needle|] == t[i..i + |w.needle|];
    }
  }

  /** First occurrence at or after `from`, case folded over ASCII, as the engine searches it. */
  method FindCaseInsensitive(text: string, needle: string, from: nat) returns (found: Option<nat>)
    requires from <= |text|
    ensures needle == "" ==> found == None
    ensures found.None? && needle != "" ==> forall i | from <= i :: !OccursAt(text, i, needle, false)
    ensures found.Some? ==>
              && from <= found.value && OccursAt(text, found.value, needle, false)
              && forall i | from <= i < found.value :: !OccursAt(text, i, needle, false)
  {
    if needle == "" {
      return None;
    }
    var i := from;
    while i < |text|
      invariant from <= i <= |text|
      invariant forall j | from <= j < i :: !OccursAt(text, j, needle, false)
    {
      if i + |needle| > |text| {
        return None;
      }
      var k := 0;
      while k < |needle| && ToLower(text[i + k]) == ToLower(needle[k])
        invariant 0 <= k <= |needle|
        invariant forall j | 0 <= j < k :: ToLower(text[i + j]) == ToLower(needle[j])
      {
        k := k + 1;
      }
      if k == |needle| {
        return Some(i);
      }
      assert text[i..i + |needle|][k] == text[i + k];
      i := i + 1;
    }
    return None;
  }

  /** First exact occurrence at or after `from`. */
  method FindExact(text: string, needle: string, from: nat) returns (found: Option<nat>)
    requires from <= |text| && needle != ""
    ensures found.None? ==> forall i | from <= i :: !OccursAt(text, i, needle, true)
    ensures found.Some? ==>
              && from <= found.value && OccursAt(text, found.value, needle, true)
              && forall i | from <= i < found.value :: !OccursAt(text, i, needle, true)
  {
    var i := from;
    while i + |needle| <= |text|
      invariant from <= i <= |text|
      invariant forall j | from <= j < i :: !OccursAt(text, j, needle, true)
    {
      ExactIsEqual(text[i..i + |needle|], needle);
      if text[i..i + |needle|] == needle {
        return Some(i);
      }
      i := i + 1;
    }
    return None;
  }

  lemma {:induction false} SubstituteSkips(w: Swap, t: string, from: nat, to: nat)
    requires from <= to <= |t|
    requires forall i | from <= i < to :: !OccursAt(t, i, w.needle, w.caseSensitive)
    ensures Substitute(w, t[from..]) == t[from..to] + Substitute(w, t[to..])
    decreases |t| - from
  {
    hide OccursAt, SameText, Render;
    if from < to {
      HitIsOccurrence(w, t, from);
      SubstituteSkips(w, t, from + 1, to);
      assert t[from..][1..] == t[from + 1..];
      assert t[from..to] == [t[from]] + t[from + 1..to];
      assert [t[from]] + (t[from + 1..to] + Substitute(w, t[to..])) == t[from..to] + Substitute(w, t[to..]);
    } else {
      assert t[from..to] == "";
    }
  }

  lemma {:induction false} SubstituteHit(w: Swap, t: string)
    requires w.Hit(t)
    ensures Substitute(w, t) == w.Shaped(t[..|w.needle|]) + Substitute(w, t[|w.needle|..])
  {
    hide SameText, Render;
  }

  /** What one occurrence adds: the text before it and its replacement. */
  lemma {:induction false} SubstituteNext(w: Swap, t: string, from: nat, start: nat)
    requires from <= start && w.needle != "" && OccursAt(t, start, w.needle, w.caseSensitive)
    requires forall i | from <= i < start :: !OccursAt(t, i, w.needle, w.caseSensitive)
    ensures Substitute(w, t[from..])
            == t[from..start] + (w.Shaped(t[start..start + |w.needle|]) + Substitute(w, t[start + |w.needle|..]))
  {
    hide Substitute, SameText;
    SubstituteSkips(w, t, from, start);
    HitIsOccurrence(w, t, start);
    SubstituteHit(w, t[start..]);
    assert t[start..][..|w.needle|] == t[start..start + |w.needle|];
    assert t[start..][|w.needle|..] == t[start + |w.needle|..];
  }

  lemma {:induction false} SubstituteRest(w: Swap, t: string, from: nat)
    requires from <= |t|
    requires w.needle == "" || forall i | from <= i :: !OccursAt(t, i, w.needle, w.caseSensitive)
    ensures Substitute(w, t[from..]) == t[from..]
  {
    if w.needle == "" {
      NoNeedle(w, t[from..]);
    } else {
      SubstituteSkips(w, t, from, |t|);
      assert t[from..|t|] == t[from..] && t[|t|..] == "";
    }
  }

  lemma {:induction false} NoNeedle(w: Swap, t: string)
    requires w.needle == ""
    ensures Substitute(w, t) == t
    decreases |t|
  {
    if t != "" {
      NoNeedle(w, t[1..]);
    }
  }

  /** The engine's substitution loop. */
  method SubstitutePreservingCase(w: Swap, text: string) returns (result: string)
    ensures result == Substitute(w, text)
  {
    hide Substitute, OccursAt, SameText;
    assert text[0..] == text;
    if w.needle == "" {
      SubstituteRest(w, text, 0);
      return text;
    }
    result := "";
    var pos := 0;
    while pos < |text|
      invariant 0 <= pos <= |text|
      invariant Substitute(w, text) == result + Substitute(w, text[pos..])
      decreases |text| - pos
    {
      var found;
      if w.caseSensitive {
        found := FindExact(text, w.needle, pos);
      } else {
        found := FindCaseInsensitive(text, w.needle, pos);
      }
      match found {
        case Some(start) =>
          var end := start + |w.needle|;
          SubstituteNext(w, text, pos, start);
          OccurrenceFits(text, start, w.needle, w.caseSensitive);
          var shaped := w.Shaped(text[start..end]);
          Reassociate(result, text[pos..start], shaped, Substitute(w, text[end..]));
          result := result + text[pos..start] + shaped;
          pos := end;
        case None =>
          SubstituteRest(w, text, pos);
          NothingToSubstitute(w, text[|text|..]);
          result := result + text[pos..];
          pos := |text|;
      }
    }
    NothingToSubstitute(w, text[pos..]);
  }

  lemma {:induction false} Reassociate(a: string, b: string, c: string, d: string)
    ensures a + (b + (c + d)) == a + b + c + d
  {
  }

  lemma {:induction false} OccurrenceFits(t: string, i: nat, needle: string, cs: bool)
    requires OccursAt(t, i, needle, cs)
    ensures i + |needle| <= |t|
  {
  }

  lemma {:induction false} NothingToSubstitute(w: Swap, t: string)
    requires t == ""
    ensures Substitute(w, t) == "" && SubstituteOutsideSpans(w, t) == ""
  {
  }

  // ---------- substitution that preserves tokens ----------

  lemma {:induction false} HitHasNoBracket(w: Swap, t: string, i: nat)
    requires w.Hit(t) && '[' !in w.needle && i < |w.needle|
    ensures t[i] != '['
  {
    assert SameChar(t[..|w.needle|][i], w.needle[i], w.caseSensitive);
  }

  /** Whether an occurrence starts a plain run does not depend on the token after the run. */
  lemma {:induction false} HitWithinRun(w: Swap, p: string, rest: string)
    requires '[' !in w.needle && (rest == "" || rest[0] == '[')
    ensures w.Hit(p + rest) == w.Hit(p)
    ensures w.Hit(p) ==> (p + rest)[..|w.needle|] == p[..|w.needle|]
  {
    var t := p + rest;
    if |w.needle| <= |p| {
      assert t[..|w.needle|] == p[..|w.needle|];
    } else if w.Hit(t) {
      HitHasNoBracket(w, t, |p|);
    }
  }

  /** One step over text that starts with no span. */
  lemma {:induction false} OutsideStep(w: Swap, t: string)
    requires t != "" && SpanLen(t) == 0
    ensures SubstituteOutsideSpans(w, t) ==
            if w.Hit(t) then w.Shaped(t[..|w.needle|]) + SubstituteOutsideSpans(w, t[|w.needle|..])
            else [t[0]] + SubstituteOutsideSpans(w, t[1..])
  {
    hide SpanLen, SameText, Render;
  }

  lemma {:induction false} OutsideSpan(w: Swap, t: string)
    requires t != "" && SpanLen(t) > 0
    ensures SubstituteOutsideSpans(w, t) == t[..SpanLen(t)] + SubstituteOutsideSpans(w, t[SpanLen(t)..])
  {
    hide SpanLen, SameText, Render;
  }

  lemma {:induction false} SubstituteStep(w: Swap, t: string)
    requires t != ""
    ensures Substitute(w, t) ==
            if w.Hit(t) then w.Shaped(t[..|w.needle|]) + Substitute(w, t[|w.needle|..]) else [t[0]] + Substitute(w, t[1..])
  {
    hide SameText, Render;
  }

  lemma {:induction false} SpanFreeTail(p: string, rest: string, n: nat)
    requires n <= |p| && forall i | 0 <= i < |p| :: SpanLen((p + rest)[i..]) == 0
    ensures (p + rest)[n..] == p[n..] + rest
    ensures forall i | 0 <= i < |p[n..]| :: SpanLen((p[n..] + rest)[i..]) == 0
  {
    hide SpanLen;
    forall i | 0 <= i < |p[n..]| ensures SpanLen((p[n..] + rest)[i..]) == 0 {
      assert (p[n..] + rest)[i..] == (p + rest)[n + i..];
    }
  }

  /** A plain run that is followed by a token, or by nothing, is substituted on its own. */
  lemma {:induction false} PlainRunIsSubstituted(w: Swap, p: string, rest: string)
    requires '[' !in w.needle
    requires rest == "" || rest[0] == '['
    requires forall i | 0 <= i < |p| :: SpanLen((p + rest)[i..]) == 0
    ensures SubstituteOutsideSpans(w, p + rest) == Substitute(w, p) + SubstituteOutsideSpans(w, rest)
    decreases |p|
  {
    hide SpanLen, SameText, Substitute, SubstituteOutsideSpans, Swap.Shaped;
    if p == "" {
      assert p + rest == rest;
      NothingToSubstitute(w, p);
    } else {
      assert (p + rest)[0..] == p + rest;
      HitWithinRun(w, p, rest);
      var n := if w.Hit(p) then |w.needle| else 1;
      SpanFreeTail(p, rest, n);
      PlainRunIsSubstituted(w, p[n..], rest);
      SubstituteStep(w, p);
      OutsideStep(w, p + rest);
      var head := if w.Hit(p) then w.Shaped(p[..n]) else [p[0]];
      assert head + (Substitute(w, p[n..]) + SubstituteOutsideSpans(w, rest))
          == (head + Substitute(w, p[n..])) + SubstituteOutsideSpans(w, rest);
    }
  }

  /** Substitution in the plain segments, tokens copied. */
  function SubstituteSegments(w: Swap, segments: seq<Segment>): string {
    if segments == [] then ""
    else (if segments[0].Plain? then Substitute(w, segments[0].text) else segments[0].token) + SubstituteSegments(w, segments[1..])
  }

  lemma {:induction false} SubstituteSegmentsCons(w: Swap, s: Segment, rest: seq<Segment>)
    ensures SubstituteSegments(w, [s] + rest)
         == (if s.Plain? then Substitute(w, s.text) else s.token) + SubstituteSegments(w, rest)
  {
    assert ([s] + rest)[1..] == rest;
  }

  lemma {:induction false} SegmentwiseIsOnePass(w: Swap, text: string, from: nat)
    requires '[' !in w.needle && from <= |text|
    ensures SubstituteSegments(w, SegmentsFrom(text, from)) == SubstituteOutsideSpans(w, text[from..])
    decreases |text| - from
  {
    hide SpanLen, Substitute, SubstituteOutsideSpans, SubstituteSegments, NextSpan;
    if from == |text| {
      NothingToSubstitute(w, text[from..]);
      NoSegments(w);
    } else {
      var start := NextSpan(text, from);
      if from < start {
        var p, rest := text[from..start], text[start..];
        assert p + rest == text[from..];
        forall i | 0 <= i < |p| ensures SpanLen((p + rest)[i..]) == 0 {
          assert (p + rest)[i..] == text[from + i..];
        }
        SubstituteSegmentsCons(w, Plain(p, from), SegmentsFrom(text, start));
        PlainRunIsSubstituted(w, p, rest);
        SegmentwiseIsOnePass(w, text, start);
      } else {
        var n := SpanLen(text[from..]);
        SegmentwiseIsOnePass(w, text, from + n);
        SubstituteSegmentsCons(w, Existing(text[from..from + n], from), SegmentsFrom(text, from + n));
        OutsideSpan(w, text[from..]);
        assert text[from..][..n] == text[from..from + n] && text[from..][n..] == text[from + n..];
      }
    }
  }

  lemma {:induction false} NoSegments(w: Swap)
    ensures SubstituteSegments(w, []) == ""
  {
  }

  /** The engine's token-preserving substitution: mask the spans, substitute each plain segment. */
  method UnaliasPreservingTokens(w: Swap, text: string) returns (result: string)
    requires '[' !in w.needle
    ensures result == SubstituteOutsideSpans(w, text)
  {
    hide Substitute, SubstituteOutsideSpans, SubstituteSegments;
    SegmentwiseIsOnePass(w, text, 0);
    assert text[0..] == text;
    var segments := MaskSpans(text);
    result := "";
    assert segments[0..] == segments;
    for i := 0 to |segments|
      invariant SubstituteSegments(w, segments) == result + SubstituteSegments(w, segments[i..])
    {
      assert segments[i..] == [segments[i]] + segments[i + 1..];
      SubstituteSegmentsCons(w, segments[i], segments[i + 1..]);
      ghost var before, rest := result, SubstituteSegments(w, segments[i + 1..]);
      match segments[i] {
        case Plain(t, _) =>
          var s := SubstitutePreservingCase(w, t);
          assert before + (s + rest) == (before + s) + rest;
          result := result + s;
        case _ =>
          assert before + (segments[i].token + rest) == (before + segments[i].token) + rest;
          result := result + segments[i].token;
      }
    }
    assert segments[|segments|..] == [];
    NoSegments(w);
  }

  // ---------- keywords ----------

  datatype Keyword = Keyword(matchText: string, alias: string, caseSensitive: bool) {
    /** What the policy compiler accepts. */
    predicate Valid() {
      && 3 <= |matchText| <= 128
      && 3 <= |alias| <= 128
      && matchText != alias
      && IsLetter(alias[0])
      && forall i | 0 <= i < |alias| :: IsLetter(alias[i]) || IsDigit(alias[i])
    }

    function Masking(): Swap {
      Swap(matchText, alias, caseSensitive, Verbatim)
    }

    function Unmasking(r: Rendering): Swap {
      Swap(alias, matchText, caseSensitive, r)
    }
  }

  /** Every keyword unmasked in turn, tokens stepped over each time. */
  function Unmask(ks: seq<Keyword>, r: Rendering, text: string): string {
    if ks == [] then text else Unmask(ks[1..], r, SubstituteOutsideSpans(ks[0].Unmasking(r), text))
  }

  method UnmaskKeywordsText(ks: seq<Keyword>, r: Rendering, text: string) returns (result: string)
    requires forall k | k in ks :: k.Valid()
    ensures result == Unmask(ks, r, text)
  {
    result := text;
    for i := 0 to |ks|
      invariant Unmask(ks, r, text) == Unmask(ks[i..], r, result)
    {
      assert ks[i..][1..] == ks[i + 1..];
      assert ks[i] in ks;
      result := UnaliasPreservingTokens(ks[i].Unmasking(r), result);
    }
    assert ks[|ks|..] == [];
  }
}
