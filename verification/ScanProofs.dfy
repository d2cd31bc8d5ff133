/** What every pass of a scan keeps, and what detokenization makes of the result. */
module ScanProofs {
  import opened Text
  import opened TokenSpan
  import opened Sealing
  import opened Segments
  import opened Detokenize
  import opened Scan

  predicate SpanFree(t: string) { forall i | 0 <= i < |t| :: SpanLen(t[i..]) == 0 }

  /** A segment that is what it says: a plain run without spans, a span, or the token of a value. */
  predicate Sound(k: Sealer, s: Segment) {
    match s
    case Plain(text, _) => SpanFree(text)
    case Existing(token, _) => IsSpan(token)
    case Sealed(token, category, value, _) => IsCategory(category) && BuildToken(k, category, value) == Ok(token)
  }

  /** The segments stand, one after the other, for the stretch of the text from `from` to `to`. */
  predicate Laid(k: Sealer, segments: seq<Segment>, text: string, from: nat, to: nat)
    requires from <= to <= |text|
  {
    if segments == [] then from == to
    else
      var s := segments[0];
      var next := from + |s.Source()|;
      && Sound(k, s) && s.origin == from && next <= to
      && text[from..next] == s.Source()
      && Laid(k, segments[1..], text, next, to)
  }

  /** No two plain segments are neighbours. */
  predicate Alternating(segments: seq<Segment>, afterPlain: bool) {
    segments == [] || (!(afterPlain && segments[0].Plain?) && Alternating(segments[1..], segments[0].Plain?))
  }

  predicate EndsPlain(segments: seq<Segment>, before: bool) {
    if segments == [] then before else segments[|segments| - 1].Plain?
  }

  /** The tokens the scanned text already held. */
  function ExistingOf(segments: seq<Segment>): seq<Segment> {
    if segments == [] then []
    else (if segments[0].Existing? then [segments[0]] else []) + ExistingOf(segments[1..])
  }

  /** What detokenization should make of the segments. */
  function Expand(k: Sealer, segments: seq<Segment>): Option<string> {
    if segments == [] then Some("")
    else Join(if segments[0].Plain? then Some(segments[0].text) else ResolveSpan(k, segments[0].token), Expand(k, segments[1..]))
  }

  // ---------- concatenation ----------

  /** One step of the layout. */
  lemma {:induction false} LaidUnfold(k: Sealer, segments: seq<Segment>, text: string, from: nat, to: nat)
    requires from <= to <= |text| && segments != []
    ensures var s := segments[0];
            var next := from + |s.Source()|;
            Laid(k, segments, text, from, to) <==>
            (Sound(k, s) && s.origin == from && next <= to && text[from..next] == s.Source()
             && Laid(k, segments[1..], text, next, to))
  {
    hide Sound;
  }

  lemma {:induction false} LaidConcat(k: Sealer, a: seq<Segment>, b: seq<Segment>, text: string, from: nat, mid: nat, to: nat)
    requires from <= mid <= to <= |text|
    requires Laid(k, a, text, from, mid) && Laid(k, b, text, mid, to)
    ensures Laid(k, a + b, text, from, to)
    decreases |a|
  {
    hide Sound, Laid;
    if a == [] {
      assert a + b == b;
      NothingLaid(k, text, from, mid);
    } else {
      assert (a + b)[0] == a[0] && (a + b)[1..] == a[1..] + b;
      LaidUnfold(k, a, text, from, mid);
      LaidConcat(k, a[1..], b, text, from + |a[0].Source()|, mid, to);
      LaidUnfold(k, a + b, text, from, to);
    }
  }

  lemma {:induction false} NothingLaid(k: Sealer, text: string, from: nat, to: nat)
    requires from <= to <= |text|
    ensures Laid(k, [], text, from, to) <==> from == to
  {
  }

  lemma {:induction false} AlternatingConcat(a: seq<Segment>, b: seq<Segment>, before: bool)
    requires Alternating(a, before) && Alternating(b, EndsPlain(a, before))
    ensures Alternating(a + b, before)
    decreases |a|
  {
    if a == [] {
      assert a + b == b;
    } else {
      assert (a + b)[0] == a[0] && (a + b)[1..] == a[1..] + b;
      AlternatingConcat(a[1..], b, a[0].Plain?);
    }
  }

  lemma {:induction false} ExistingConcat(a: seq<Segment>, b: seq<Segment>)
    ensures ExistingOf(a + b) == ExistingOf(a) + ExistingOf(b)
    decreases |a|
  {
    if a == [] {
      assert a + b == b;
    } else {
      assert (a + b)[0] == a[0] && (a + b)[1..] == a[1..] + b;
      ExistingConcat(a[1..], b);
    }
  }

  lemma {:induction false} ExpandConcat(k: Sealer, a: seq<Segment>, b: seq<Segment>)
    ensures Expand(k, a + b) == Join(Expand(k, a), Expand(k, b))
    decreases |a|
  {
    hide ResolveSpan;
    if a == [] {
      assert a + b == b;
      var x := Expand(k, b);
      if x.Some? {
        assert "" + x.value == x.value;
      }
    } else {
      assert (a + b)[0] == a[0] && (a + b)[1..] == a[1..] + b;
      ExpandConcat(k, a[1..], b);
      var head := if a[0].Plain? then Some(a[0].text) else ResolveSpan(k, a[0].token);
      JoinAssociative(head, Expand(k, a[1..]), Expand(k, b));
    }
  }

  // ---------- masking ----------

  lemma {:induction false} SpanFreePart(t: string, i: nat, j: nat)
    requires SpanFree(t) && i <= j <= |t|
    ensures SpanFree(t[i..j])
  {
    hide SpanLen;
    forall p | 0 <= p < |t[i..j]| ensures SpanLen(t[i..j][p..]) == 0 {
      ShorterHasNoSpan(t[i + p..], |t[i..j][p..]|);
      assert t[i..j][p..] == t[i + p..][..|t[i..j][p..]|];
    }
  }

  /** One segment in front of a layout. */
  lemma {:induction false} LaidCons(k: Sealer, s: Segment, rest: seq<Segment>, text: string, from: nat, next: nat)
    requires from <= next <= |text| && Sound(k, s) && s.origin == from && s.Source() == text[from..next]
    requires Laid(k, rest, text, next, |text|)
    ensures Laid(k, [s] + rest, text, from, |text|)
  {
    hide Sound, Laid;
    assert ([s] + rest)[1..] == rest;
    LaidUnfold(k, [s] + rest, text, from, |text|);
  }

  /** Masking lays the segments out over the whole text. */
  lemma {:induction false} MaskedIsLaid(k: Sealer, text: string, from: nat)
    requires from <= |text|
    ensures Laid(k, SegmentsFrom(text, from), text, from, |text|)
    decreases |text| - from
  {
    hide SpanLen, Laid, IsSpan, NextSpan, SpanFree;
    if from == |text| {
      NothingLaid(k, text, from, from);
    } else {
      var start := NextSpan(text, from);
      if from < start {
        PlainRunIsSpanFree(text, from, start);
        MaskedIsLaid(k, text, start);
        LaidCons(k, Plain(text[from..start], from), SegmentsFrom(text, start), text, from, start);
      } else {
        var next := from + SpanLen(text[from..]);
        assert text[from..][..next - from] == text[from..next];
        MaskedIsLaid(k, text, next);
        LaidCons(k, Existing(text[from..next], from), SegmentsFrom(text, next), text, from, next);
      }
    }
  }

  lemma {:induction false} PlainRunIsSpanFree(text: string, from: nat, to: nat)
    requires from <= to <= |text| && forall j | from <= j < to :: SpanLen(text[j..]) == 0
    ensures SpanFree(text[from..to])
  {
    hide SpanLen;
    forall p | 0 <= p < to - from ensures SpanLen(text[from..to][p..]) == 0 {
      ShorterHasNoSpan(text[from + p..], to - from - p);
      assert text[from..to][p..] == text[from + p..][..to - from - p];
    }
  }

  lemma {:induction false} AlternatingCons(s: Segment, rest: seq<Segment>, afterPlain: bool)
    requires !(afterPlain && s.Plain?) && (Alternating(rest, s.Plain?) || Alternating(rest, true))
    ensures Alternating([s] + rest, afterPlain)
  {
    assert ([s] + rest)[1..] == rest;
  }

  lemma {:induction false} AlternatingNothing(afterPlain: bool)
    ensures Alternating([], afterPlain)
  {
  }

  lemma {:induction false} MaskedAlternates(text: string, from: nat)
    requires from <= |text|
    ensures Alternating(SegmentsFrom(text, from), from == |text| || SpanLen(text[from..]) > 0)
    decreases |text| - from
  {
    hide SpanLen, NextSpan, Alternating;
    if from < |text| {
      var start := NextSpan(text, from);
      if from < start {
        MaskedAlternates(text, start);
        AlternatingCons(Plain(text[from..start], from), SegmentsFrom(text, start), false);
      } else {
        var next := from + SpanLen(text[from..]);
        MaskedAlternates(text, next);
        AlternatingCons(Existing(text[from..next], from), SegmentsFrom(text, next), true);
      }
    } else {
      AlternatingNothing(true);
    }
  }

  // ---------- what a pass keeps ----------

  lemma {:induction false} CarveStep(k: Sealer, text: string, origin: nat, hits: seq<Hit>, last: nat)
    requires hits != [] && InOrder(hits, last, |text|) && Carve(k, text, origin, hits, last).Ok?
    ensures var h := hits[0];
            var value := text[h.start..h.end];
            var token := BuildToken(k, h.category, value);
            var rest := Carve(k, text, origin, hits[1..], h.end);
            && token.Ok? && rest.Ok?
            && Carve(k, text, origin, hits, last).value
               == Gap(text, origin, last, h.start) + ([Sealed(token.value, h.category, value, origin + h.start)] + rest.value)
  {
    hide BuildToken, Gap;
  }

  lemma {:induction false} BeforeKeeps(k: Sealer, text: string, from: nat, to: nat, i: nat, j: nat)
    requires from <= to <= |text| && SpanFree(text[from..to]) && i <= j <= to - from
    ensures var out := Gap(text[from..to], from, i, j);
            && Laid(k, out, text, from + i, from + j)
            && Alternating(out, false) && ExistingOf(out) == []
            && Expand(k, out) == Some(text[from..to][i..j])
  {
    hide SpanFree, Laid, ResolveSpan;
    var t := text[from..to];
    if i < j {
      SpanFreePart(t, i, j);
      PlainIsSound(k, t[i..j], from + i);
      var out := [Plain(t[i..j], from + i)];
      SliceOfSlice(text, from, to, i, j);
      assert out[1..] == [];
      LaidUnfold(k, out, text, from + i, from + j);
      NothingLaid(k, text, from + j, from + j);
      assert t[i..j] + "" == t[i..j];
    } else {
      NothingLaid(k, text, from + i, from + j);
      assert t[i..j] == "";
    }
  }

  /** Carving keeps the stretch of text and the separation of plain segments, and what is recovered
      from the pieces is the text they stand for. */
  lemma {:induction false} CarveKeeps(k: Sealer, text: string, from: nat, to: nat, hits: seq<Hit>, last: nat)
    requires k.Sound() && from <= to <= |text| && SpanFree(text[from..to]) && InOrder(hits, last, to - from)
    requires forall h | h in hits :: IsCategory(h.category)
    requires Carve(k, text[from..to], from, hits, last).Ok?
    ensures var out := Carve(k, text[from..to], from, hits, last).value;
            && Laid(k, out, text, from + last, to)
            && Alternating(out, false) && ExistingOf(out) == []
            && Expand(k, out) == Some(text[from..to][last..])
    decreases |hits|
  {
    hide Laid, BuildToken, SpanFree, IsCategory, Sound, ResolveSpan, Carve, Gap;
    var t := text[from..to];
    if hits == [] {
      BeforeKeeps(k, text, from, to, last, |t|);
      CarveNothing(k, t, from, last);
    } else {
      var h := hits[0];
      assert forall x | x in hits[1..] :: x in hits;
      CarveStep(k, t, from, hits, last);
      CarveKeeps(k, text, from, to, hits[1..], h.end);
      var rest := Carve(k, t, from, hits[1..], h.end).value;
      var token := BuildToken(k, h.category, t[h.start..h.end]).value;
      SealedThen(k, text, from, to, h, rest);
      BeforeThen(k, text, from, to, last, h.start, [Sealed(token, h.category, t[h.start..h.end], from + h.start)] + rest);
    }
  }

  /** One hit sealed, before what is kept after it. */
  lemma {:induction false} SealedThen(k: Sealer, text: string, from: nat, to: nat, h: Hit, rest: seq<Segment>)
    requires k.Sound() && from <= to <= |text| && h.start <= h.end <= to - from && IsCategory(h.category)
    requires BuildToken(k, h.category, text[from..to][h.start..h.end]).Ok?
    requires Laid(k, rest, text, from + h.end, to) && Alternating(rest, false) && ExistingOf(rest) == []
    requires Expand(k, rest) == Some(text[from..to][h.end..])
    ensures var value := text[from..to][h.start..h.end];
            var sealed := [Sealed(BuildToken(k, h.category, value).value, h.category, value, from + h.start)] + rest;
            && Laid(k, sealed, text, from + h.start, to) && Alternating(sealed, false) && ExistingOf(sealed) == []
            && Expand(k, sealed) == Some(text[from..to][h.start..])
  {
    hide Laid, BuildToken, IsCategory, Sound, ResolveSpan;
    var t := text[from..to];
    var value := t[h.start..h.end];
    var token := BuildToken(k, h.category, value).value;
    var sealed := [Sealed(token, h.category, value, from + h.start)] + rest;
    SealIsSound(k, token, h.category, value, from + h.start);
    TokenResolves(k, h.category, value);
    SliceOfSlice(text, from, to, h.start, h.end);
    assert sealed[1..] == rest;
    LaidUnfold(k, sealed, text, from + h.start, to);
    assert value + t[h.end..] == t[h.start..];
  }

  lemma {:induction false} CarveNothing(k: Sealer, t: string, origin: nat, last: nat)
    requires last <= |t|
    ensures Carve(k, t, origin, [], last) == Ok(Gap(t, origin, last, |t|)) && t[last..|t|] == t[last..]
  {
  }

  lemma {:induction false} BeforeThen(k: Sealer, text: string, from: nat, to: nat, i: nat, j: nat, sealed: seq<Segment>)
    requires from <= to <= |text| && SpanFree(text[from..to]) && i <= j <= to - from
    requires sealed != [] && !sealed[0].Plain? && Laid(k, sealed, text, from + j, to) && Alternating(sealed, false)
    requires ExistingOf(sealed) == [] && Expand(k, sealed) == Some(text[from..to][j..])
    ensures var out := Gap(text[from..to], from, i, j) + sealed;
            && Laid(k, out, text, from + i, to)
            && Alternating(out, false) && ExistingOf(out) == []
            && Expand(k, out) == Some(text[from..to][i..])
  {
    hide Laid, SpanFree, ResolveSpan, Gap, Expand;
    var b := Gap(text[from..to], from, i, j);
    BeforeKeeps(k, text, from, to, i, j);
    LaidConcat(k, b, sealed, text, from + i, from + j, to);
    assert Alternating(sealed, EndsPlain(b, false));
    AlternatingConcat(b, sealed, false);
    ExistingConcat(b, sealed);
    ExpandConcat(k, b, sealed);
    assert text[from..to][i..j] + text[from..to][j..] == text[from..to][i..];
  }

  lemma {:induction false} PlainIsSound(k: Sealer, text: string, origin: nat)
    requires SpanFree(text)
    ensures Sound(k, Plain(text, origin))
  {
  }

  lemma {:induction false} SealIsSound(k: Sealer, token: string, category: string, value: string, origin: nat)
    requires IsCategory(category) && BuildToken(k, category, value) == Ok(token)
    ensures Sound(k, Sealed(token, category, value, origin))
  {
  }

  // ---------- what the output recovers ----------

  /** Every segment is what it says. */
  predicate AllSound(k: Sealer, segments: seq<Segment>) { forall s | s in segments :: Sound(k, s) }

  lemma {:induction false} LaidIsSound(k: Sealer, segments: seq<Segment>, text: string, from: nat, to: nat)
    requires from <= to <= |text| && Laid(k, segments, text, from, to)
    ensures AllSound(k, segments)
    decreases |segments|
  {
    hide Laid, Sound;
    if segments != [] {
      LaidUnfold(k, segments, text, from, to);
      LaidIsSound(k, segments[1..], text, from + |segments[0].Source()|, to);
    }
  }

  lemma {:induction false} TokenFirst(k: Sealer, segments: seq<Segment>)
    requires k.Sound() && AllSound(k, segments) && Alternating(segments, true)
    ensures Shown(segments) == "" || Shown(segments)[0] == '['
  {
    hide IsSpan, Sound;
    if segments != [] {
      assert segments[0] in segments;
      TokenIsSpan(k, segments[0]);
      SpanShape(segments[0].token);
    }
  }

  lemma {:induction false} TokenIsSpan(k: Sealer, s: Segment)
    requires k.Sound() && Sound(k, s) && !s.Plain?
    ensures IsSpan(s.token)
  {
    hide IsSpan;
    if s.Sealed? {
      TokenResolves(k, s.category, s.value);
    }
  }

  lemma {:induction false} OneSpanRecovers(k: Sealer, span: string)
    requires IsSpan(span)
    ensures Recovered(k, Verbatim, span) == ResolveSpan(k, span)
  {
    hide IsSpan, SpanLen, ResolveSpan, ErrorCategory;
    SpanShape(span);
    assert span[..|span|] == span && span[|span|..] == "";
    SpanLenUnique(span, |span|);
    assert DetokenizeFrom(k, Verbatim, span[|span|..], 1) == Ok("");
    var x := ResolveSpan(k, span);
    if x.Some? {
      assert x.value + "" == x.value;
    }
  }

  /** Every span in the output is one masked segment: detokenizing the output resolves exactly those. */
  lemma {:induction false} ShownRecovers(k: Sealer, segments: seq<Segment>, before: bool)
    requires k.Sound() && AllSound(k, segments) && Alternating(segments, before)
    ensures Recovered(k, Verbatim, Shown(segments)) == Expand(k, segments)
    decreases |segments|
  {
    hide IsSpan, SpanLen, ResolveSpan, DetokenizeFrom, BuildToken, IsCategory, Recovered;
    if segments == [] {
      SpanFreeRecovers(k, Verbatim, "", 0);
      OkIsSome(k, "");
    } else {
      var s, rest := segments[0], segments[1..];
      assert s in segments;
      ShownRecovers(k, rest, s.Plain?);
      if s.Plain? {
        TokenFirst(k, rest);
        if Shown(rest) == "" {
          NothingStraddles(s.text, Shown(rest));
        } else {
          BracketIsASeam(s.text, Shown(rest));
        }
        SpanFreeRecovers(k, Verbatim, s.text, 0);
        OkIsSome(k, s.text);
      } else {
        TokenIsSpan(k, s);
        SpanThenRest(s.token, Shown(rest));
        OneSpanRecovers(k, s.token);
      }
      RecoveredConcat(k, Verbatim, s.Shown(), Shown(rest));
    }
  }

  lemma {:induction false} NothingStraddles(a: string, b: string)
    requires b == ""
    ensures NoSpanStraddles(a, b)
  {
  }

  lemma {:induction false} OkIsSome(k: Sealer, t: string)
    requires DetokenizeFrom(k, Verbatim, t, 0) == Ok(t)
    ensures Recovered(k, Verbatim, t) == Some(t)
  {
  }

  // ---------- the passes ----------

  lemma {:induction false} SoundPlain(k: Sealer, s: Segment)
    requires Sound(k, s) && s.Plain?
    ensures SpanFree(s.text)
  {
  }

  lemma {:induction false} RuleIdIsCategory(id: string)
    requires IsValidRuleId(id)
    ensures IsCategory(id)
  {
  }

  /** One pass over the segments, each plain one replaced by its pieces. */
  lemma {:induction false} OneSegment(k: Sealer, s: Segment, piece: seq<Segment>, after: seq<Segment>, rest: seq<Segment>,
                   text: string, from: nat, to: nat, before: bool, now: bool)
    requires from + |s.Source()| <= to <= |text|
    requires Laid(k, [s] + rest, text, from, to) && Alternating([s] + rest, before) && (now ==> before)
    requires piece == [s] || (s.Plain? && Laid(k, piece, text, from, from + |s.Source()|)
                              && Alternating(piece, false) && ExistingOf(piece) == [] && Expand(k, piece) == Some(s.text))
    requires Laid(k, after, text, from + |s.Source()|, to) && Alternating(after, EndsPlain(piece, now))
    requires ExistingOf(after) == ExistingOf(rest) && Expand(k, after) == Expand(k, rest)
    ensures Laid(k, piece + after, text, from, to) && Alternating(piece + after, now)
    ensures ExistingOf(piece + after) == ExistingOf([s] + rest)
    ensures Expand(k, piece + after) == Expand(k, [s] + rest)
  {
    hide Laid, ResolveSpan, Sound;
    var mid := from + |s.Source()|;
    assert ([s] + rest)[0] == s && ([s] + rest)[1..] == rest;
    LaidUnfold(k, [s] + rest, text, from, to);
    if piece == [s] {
      LaidUnfold(k, [s], text, from, mid);
      assert [s][1..] == [];
      NothingLaid(k, text, mid, mid);
    }
    LaidConcat(k, piece, after, text, from, mid, to);
    AlternatingConcat(piece, after, now);
    ExistingConcat(piece, after);
    ExistingConcat([s], rest);
    ExpandConcat(k, piece, after);
    ExpandConcat(k, [s], rest);
    OneExpanded(k, s);
  }

  lemma {:induction false} OneExpanded(k: Sealer, s: Segment)
    ensures s.Plain? ==> Expand(k, [s]) == Some(s.text) && ExistingOf([s]) == []
  {
    hide ResolveSpan;
    assert [s][1..] == [];
    if s.Plain? {
      assert s.text + "" == s.text;
    }
  }

  /** Each pass, as the pieces it makes of the plain segments. */
  lemma {:induction false} RuleKeeps(k: Sealer, rule: Rule, segments: seq<Segment>, text: string, from: nat, before: bool, now: bool)
    requires k.Sound() && IsValidRuleId(rule.category) && ApplyRule(k, rule, segments).Ok?
    requires from <= |text| && Laid(k, segments, text, from, |text|) && Alternating(segments, before) && (now ==> before)
    ensures var after := ApplyRule(k, rule, segments).value;
            && Laid(k, after, text, from, |text|) && Alternating(after, now)
            && ExistingOf(after) == ExistingOf(segments) && Expand(k, after) == Expand(k, segments)
    decreases |segments|
  {
    hide Laid, ResolveSpan, Sound, Carve, RuleHits, SpanFree, IsCategory, InOrder, IsValidRuleId;
    if segments != [] {
      var s, rest := segments[0], segments[1..];
      assert segments == [s] + rest;
      LaidUnfold(k, segments, text, from, |text|);
      var next := from + |s.Source()|;
      var piece := if s.Plain? then TokenizeSegment(k, rule, s.text, s.origin).value else [s];
      if s.Plain? {
        SoundPlain(k, s);
        var hits := RuleHits(rule, s.text);
        RuleHitsInOrder(rule, s.text);
        RuleIdIsCategory(rule.category);
        if hits != [] && rule.tokenize {
          CarveKeeps(k, text, from, next, hits, 0);
          assert s.text[0..] == s.text;
        }
      }
      var ends := EndsPlain(piece, now);
      RuleKeeps(k, rule, rest, text, next, s.Plain?, ends);
      OneSegment(k, s, piece, ApplyRule(k, rule, rest).value, rest, text, from, |text|, before, now);
    }
  }

  predicate Orderly(spans: seq<ExternalSpan>) {
    forall s | s in spans :: s.start < s.end && IsValidRuleId(s.category)
  }

  lemma {:induction false} ExternalHitsHaveCategories(size: nat, origin: nat, spans: seq<ExternalSpan>, observe: set<string>, last: nat)
    requires last <= size && Orderly(spans)
    ensures forall h | h in ExternalHits(size, origin, spans, observe, last) :: IsCategory(h.category)
  {
    hide IsValidRuleId, IsCategory;
    if spans != [] {
      var s := spans[0];
      assert s in spans;
      RuleIdIsCategory(s.category);
      assert forall x | x in spans[1..] :: x in spans;
      if s.start >= origin && s.end <= origin + size && s.start - origin >= last && s.category !in observe {
        ExternalHitsHaveCategories(size, origin, spans[1..], observe, s.end - origin);
      } else {
        ExternalHitsHaveCategories(size, origin, spans[1..], observe, last);
      }
    }
  }

  lemma {:induction false} ExternalKeeps(k: Sealer, segments: seq<Segment>, spans: seq<ExternalSpan>, observe: set<string>,
                                         text: string, from: nat, before: bool, now: bool)
    requires k.Sound() && Orderly(spans) && ApplyExternal(k, segments, spans, observe).Ok?
    requires from <= |text| && Laid(k, segments, text, from, |text|) && Alternating(segments, before) && (now ==> before)
    ensures var after := ApplyExternal(k, segments, spans, observe).value;
            && Laid(k, after, text, from, |text|) && Alternating(after, now)
            && ExistingOf(after) == ExistingOf(segments) && Expand(k, after) == Expand(k, segments)
    decreases |segments|
  {
    hide Laid, ResolveSpan, Sound, Carve, SpanFree, IsCategory, InOrder, IsValidRuleId, ExternalHits;
    if segments != [] {
      var s, rest := segments[0], segments[1..];
      assert segments == [s] + rest;
      LaidUnfold(k, segments, text, from, |text|);
      var next := from + |s.Source()|;
      var piece := [s];
      if s.Plain? {
        SoundPlain(k, s);
        var hits := ExternalHits(|s.text|, s.origin, spans, observe, 0);
        ExternalHitsHaveCategories(|s.text|, s.origin, spans, observe, 0);
        piece := Carve(k, s.text, s.origin, hits, 0).value;
        CarveKeeps(k, text, from, next, hits, 0);
        assert s.text[0..] == s.text;
      }
      var ends := EndsPlain(piece, now);
      ExternalKeeps(k, rest, spans, observe, text, next, s.Plain?, ends);
      OneSegment(k, s, piece, ApplyExternal(k, rest, spans, observe).value, rest, text, from, |text|, before, now);
    }
  }

  lemma {:induction false} RulesKeep(k: Sealer, rules: seq<Rule>, segments: seq<Segment>, text: string)
    requires k.Sound() && (forall i | 0 <= i < |rules| :: IsValidRuleId(rules[i].category))
    requires ApplyRules(k, rules, segments).Ok?
    requires Laid(k, segments, text, 0, |text|) && Alternating(segments, false)
    ensures var after := ApplyRules(k, rules, segments).value;
            && Laid(k, after, text, 0, |text|) && Alternating(after, false)
            && ExistingOf(after) == ExistingOf(segments) && Expand(k, after) == Expand(k, segments)
    decreases |rules|
  {
    hide Laid, Alternating, ApplyRule, ExistingOf, Expand, IsValidRuleId;
    if |rules| != 0 {
      RuleKeeps(k, rules[0], segments, text, 0, false, false);
      RulesKeep(k, rules[1..], ApplyRule(k, rules[0], segments).value, text);
    }
  }

  lemma {:induction false} MaskedShowsText(text: string, from: nat)
    requires from <= |text|
    ensures Shown(SegmentsFrom(text, from)) == text[from..]
    decreases |text| - from
  {
    hide SpanLen, NextSpan, Shown;
    ShownNothing();
    if from < |text| {
      var start := NextSpan(text, from);
      var to := if from < start then start else from + SpanLen(text[from..]);
      var first := if from < start then Plain(text[from..to], from) else Existing(text[from..to], from);
      MaskedShowsText(text, to);
      ShownCons(first, SegmentsFrom(text, to));
      assert text[from..to] + text[to..] == text[from..];
    }
  }

  lemma {:induction false} ShownCons(s: Segment, rest: seq<Segment>)
    ensures Shown([s] + rest) == s.Shown() + Shown(rest)
  {
    assert ([s] + rest)[1..] == rest;
  }

  lemma {:induction false} ShownNothing()
    ensures Shown([]) == ""
  {
  }

  /** The segment invariant, from the first pass to the last: plain segments are untouched source at
      their origin, never neighbours, and free of spans; the tokens the text already held are there,
      verbatim and in order; and the pieces recover what the text recovers. */
  lemma {:induction false} ScanKeeps(k: Sealer, rules: seq<Rule>, text: string, external: seq<ExternalSpan>)
    requires k.Sound() && forall i | 0 <= i < |rules| :: IsValidRuleId(rules[i].category)
    requires ScanSegments(k, rules, text, external).Ok?
    ensures var out := ScanSegments(k, rules, text, external).value;
            && Laid(k, out, text, 0, |text|) && Alternating(out, false)
            && ExistingOf(out) == ExistingOf(MaskedSegments(text))
            && Expand(k, out) == Recovered(k, Verbatim, text)
  {
    hide Laid, Alternating, ApplyRules, ApplyExternal, ExistingOf, Expand, IsValidRuleId, Normalize, Recovered, ObserveOnly;
    var masked := MaskedSegments(text);
    MaskedIsLaid(k, text, 0);
    MaskedAlternates(text, 0);
    assert Alternating(masked, false) by { AlternatingAnyway(masked, 0 == |text| || SpanLen(text[0..]) > 0); }
    LaidIsSound(k, masked, text, 0, |text|);
    ShownRecovers(k, masked, false);
    MaskedShowsText(text, 0);
    assert text[0..] == text;
    RulesKeep(k, rules, masked, text);
    NormalizeIsOrdered(text, external);
    ExternalKeeps(k, ApplyRules(k, rules, masked).value, Normalize(text, external), ObserveOnly(rules), text, 0, false, false);
  }

  lemma {:induction false} AlternatingAnyway(segments: seq<Segment>, before: bool)
    requires Alternating(segments, before)
    ensures Alternating(segments, false)
  {
  }

  /** Scanning never changes what detokenization recovers. */
  lemma {:induction false} ScanPreservesRecovery(k: Sealer, rules: seq<Rule>, text: string, external: seq<ExternalSpan>)
    requires k.Sound() && forall i | 0 <= i < |rules| :: IsValidRuleId(rules[i].category)
    requires ScanText(k, rules, text, external).Ok?
    ensures Recovered(k, Verbatim, ScanText(k, rules, text, external).value) == Recovered(k, Verbatim, text)
  {
    hide Laid, Alternating, ExistingOf, Expand, IsValidRuleId, Recovered, ScanSegments;
    ScanKeeps(k, rules, text, external);
    LaidIsSound(k, ScanSegments(k, rules, text, external).value, text, 0, |text|);
    ShownRecovers(k, ScanSegments(k, rules, text, external).value, false);
  }

  /** A text that held no token comes back as it was. */
  lemma {:induction false} ScanRoundTrip(k: Sealer, rules: seq<Rule>, text: string, external: seq<ExternalSpan>)
    requires k.Sound() && SpanFree(text) && forall i | 0 <= i < |rules| :: IsValidRuleId(rules[i].category)
    requires ScanText(k, rules, text, external).Ok?
    ensures Recovered(k, Verbatim, ScanText(k, rules, text, external).value) == Some(text)
  {
    hide SpanLen, IsValidRuleId, ScanText, DetokenizeFrom;
    ScanPreservesRecovery(k, rules, text, external);
    SpanFreeRecovers(k, Verbatim, text, 0);
  }

  /** Every plain segment is the scanned text at its origin. */
  lemma {:induction false} PlainIsSource(k: Sealer, segments: seq<Segment>, text: string, from: nat, s: Segment)
    requires from <= |text| && Laid(k, segments, text, from, |text|) && s in segments
    ensures from <= s.origin && s.origin + |s.Source()| <= |text| && text[s.origin..s.origin + |s.Source()|] == s.Source()
    ensures Sound(k, s)
    decreases |segments|
  {
    hide Laid, Sound;
    LaidUnfold(k, segments, text, from, |text|);
    if s != segments[0] {
      PlainIsSource(k, segments[1..], text, from + |segments[0].Source()|, s);
    }
  }

  // ---------- which detector spans are sealed ----------

  function SealOf(k: Sealer, text: string, s: ExternalSpan): Option<Segment>
    requires s.start <= s.end <= |text|
  {
    var value := text[s.start..s.end];
    match BuildToken(k, s.category, value)
    case Err(_) => None
    case Ok(token) => Some(Sealed(token, s.category, value, s.start))
  }

  predicate LiesIn(s: ExternalSpan, p: Segment) {
    p.Plain? && p.origin <= s.start && s.end <= p.origin + |p.text|
  }

  predicate Inner(s: ExternalSpan, size: nat, origin: nat, observe: set<string>, h: Hit) {
    && s.category !in observe && origin <= s.start <= s.end <= origin + size
    && h == Hit(s.start - origin, s.end - origin, s.category)
  }

  predicate Clear(spans: seq<ExternalSpan>, origin: nat, last: nat) {
    forall i | 0 <= i < |spans| && origin <= spans[i].start :: origin + last <= spans[i].start
  }

  /** Among disjoint spans in order, none that lies in the segment is skipped. */
  lemma {:induction false} InnerSpanBecomesHit(size: nat, origin: nat, spans: seq<ExternalSpan>, observe: set<string>, last: nat, s: ExternalSpan, h: Hit)
    requires last <= size && Scan.Apart(spans, 0) && Clear(spans, origin, last)
    requires s in spans && Inner(s, size, origin, observe, h)
    ensures (forall x | x in spans :: x.start <= x.end) && h in ExternalHits(size, origin, spans, observe, last)
  {
    var t, rest := spans[0], spans[1..];
    assert forall i | 0 <= i < |rest| :: rest[i] == spans[i + 1];
    assert Scan.Apart(rest, 0);
    if t.start >= origin && t.end <= origin + size && t.start - origin >= last && t.category !in observe {
      if s in rest {
        assert Clear(rest, origin, t.end - origin);
        InnerSpanBecomesHit(size, origin, rest, observe, t.end - origin, s, h);
      }
    } else {
      assert s in rest;
      InnerSpanBecomesHit(size, origin, rest, observe, last, s, h);
    }
  }

  function SealOfHit(k: Sealer, text: string, origin: nat, h: Hit): Option<Segment>
    requires h.start <= h.end <= |text|
  {
    match BuildToken(k, h.category, text[h.start..h.end])
    case Err(_) => None
    case Ok(token) => Some(Sealed(token, h.category, text[h.start..h.end], origin + h.start))
  }

  /** The sealed pieces of a carved run are exactly the seals of its hits. */
  lemma {:induction false} CarveSeals(k: Sealer, text: string, origin: nat, hits: seq<Hit>, last: nat, x: Segment)
    requires InOrder(hits, last, |text|) && Carve(k, text, origin, hits, last).Ok? && x.Sealed?
    ensures x in Carve(k, text, origin, hits, last).value <==>
            exists h :: h in hits && h.start <= h.end <= |text| && SealOfHit(k, text, origin, h) == Some(x)
    decreases |hits|
  {
    hide BuildToken, Carve;
    if hits == [] {
      CarveNothing(k, text, origin, last);
    } else {
      var h, rest := hits[0], hits[1..];
      CarveStep(k, text, origin, hits, last);
      CarveSeals(k, text, origin, rest, h.end, x);
      var out := Carve(k, text, origin, rest, h.end).value;
      assert x in Carve(k, text, origin, hits, last).value <==> SealOfHit(k, text, origin, h) == Some(x) || x in out;
      assert forall y :: y in hits <==> y == h || y in rest;
    }
  }

  /** A sealed piece of the result is one the rules made, or was carved from a plain segment. */
  lemma {:induction false} ExternalPieces(k: Sealer, segments: seq<Segment>, spans: seq<ExternalSpan>, observe: set<string>, x: Segment)
    requires (forall s | s in spans :: s.start <= s.end) && ApplyExternal(k, segments, spans, observe).Ok? && x.Sealed?
    ensures x in ApplyExternal(k, segments, spans, observe).value <==>
            x in segments || exists p :: p in segments && p.Plain? && CarvedFrom(k, p, spans, observe, x)
    ensures forall p | p in segments && p.Plain? :: Carve(k, p.text, p.origin, ExternalHits(|p.text|, p.origin, spans, observe, 0), 0).Ok?
    decreases |segments|
  {
    hide Carve, ExternalHits, InOrder;
    if segments != [] {
      var s, rest := segments[0], segments[1..];
      ExternalPieces(k, rest, spans, observe, x);
      assert forall y :: y in segments <==> y == s || y in rest;
    }
  }

  predicate CarvedFrom(k: Sealer, p: Segment, spans: seq<ExternalSpan>, observe: set<string>, x: Segment)
    requires p.Plain? && forall s | s in spans :: s.start <= s.end
  {
    var r := Carve(k, p.text, p.origin, ExternalHits(|p.text|, p.origin, spans, observe, 0), 0);
    r.Ok? && x in r.value
  }

  /** External sealing, exactly: with the rules done, a kept span of a category that is not
      observe-only is sealed iff it lies wholly inside one plain segment the rules left. (A rule may
      have made the very same seal; then it is there already.) */
  lemma {:induction false} ExternalSealedExactly(k: Sealer, rules: seq<Rule>, text: string, external: seq<ExternalSpan>, s: ExternalSpan, x: Segment)
    requires k.Sound() && forall i | 0 <= i < |rules| :: IsValidRuleId(rules[i].category)
    requires ScanSegments(k, rules, text, external).Ok?
    requires s in Normalize(text, external) && s.category !in ObserveOnly(rules)
    requires s.start <= s.end <= |text| && SealOf(k, text, s) == Some(x)
    ensures ApplyRules(k, rules, MaskedSegments(text)).Ok?
    ensures var left := ApplyRules(k, rules, MaskedSegments(text)).value;
            x in ScanSegments(k, rules, text, external).value <==>
            x in left || exists p :: p in left && LiesIn(s, p)
  {
    hide Laid, ApplyRules, ApplyExternal, IsValidRuleId, Normalize, SealOf, LiesIn, CarvedFrom, MaskedSegments,
      ObserveOnly, ExternalHits, Carve, Sound;
    var left := ApplyRules(k, rules, MaskedSegments(text)).value;
    var spans, observe := Normalize(text, external), ObserveOnly(rules);
    NormalizeIsOrdered(text, external);
    RulesLeaveLaid(k, rules, text);
    SealIsSealed(k, text, s);
    ExternalPieces(k, left, spans, observe, x);
    forall p | p in left ensures LiesIn(s, p) <==> p.Plain? && CarvedFrom(k, p, spans, observe, x) {
      LiesInPlain(s, p);
      if p.Plain? {
        PlainIsSource(k, left, text, 0, p);
        SealedWhereItLies(k, text, spans, observe, p, s, x);
      }
    }
  }

  lemma {:induction false} LiesInPlain(s: ExternalSpan, p: Segment)
    ensures LiesIn(s, p) ==> p.Plain?
  {
  }

  lemma {:induction false} SealIsSealed(k: Sealer, text: string, s: ExternalSpan)
    requires s.start <= s.end <= |text|
    ensures SealOf(k, text, s).Some? ==> SealOf(k, text, s).value.Sealed?
  {
    hide BuildToken;
  }

  /** What the rules leave still stands for the whole text. */
  lemma {:induction false} RulesLeaveLaid(k: Sealer, rules: seq<Rule>, text: string)
    requires k.Sound() && forall i | 0 <= i < |rules| :: IsValidRuleId(rules[i].category)
    requires ApplyRules(k, rules, MaskedSegments(text)).Ok?
    ensures Laid(k, ApplyRules(k, rules, MaskedSegments(text)).value, text, 0, |text|)
  {
    hide Laid, Alternating, ApplyRules, ExistingOf, Expand, IsValidRuleId, SpanLen;
    MaskedIsLaid(k, text, 0);
    MaskedAlternates(text, 0);
    AlternatingAnyway(MaskedSegments(text), 0 == |text| || SpanLen(text[0..]) > 0);
    RulesKeep(k, rules, MaskedSegments(text), text);
  }

  lemma {:induction false} SealedWhereItLies(k: Sealer, text: string, spans: seq<ExternalSpan>, observe: set<string>, p: Segment, s: ExternalSpan, x: Segment)
    requires Scan.Apart(spans, 0) && s in spans && s.category !in observe && s.start < s.end <= |text| && SealOf(k, text, s) == Some(x)
    requires p.Plain? && p.origin + |p.text| <= |text| && text[p.origin..p.origin + |p.text|] == p.text
    requires (forall s | s in spans :: s.start <= s.end)
             && Carve(k, p.text, p.origin, ExternalHits(|p.text|, p.origin, spans, observe, 0), 0).Ok?
    ensures CarvedFrom(k, p, spans, observe, x) <==> LiesIn(s, p)
  {
    hide BuildToken, ExternalHits, Carve, InOrder;
    var size := |p.text|;
    var hits := ExternalHits(size, p.origin, spans, observe, 0);
    CarveSeals(k, p.text, p.origin, hits, 0, x);
    if LiesIn(s, p) {
      var h := Hit(s.start - p.origin, s.end - p.origin, s.category);
      InnerSpanBecomesHit(size, p.origin, spans, observe, 0, s, h);
      SliceOfSlice(text, p.origin, p.origin + size, h.start, h.end);
      assert SealOfHit(k, p.text, p.origin, h) == Some(x);
    }
    if CarvedFrom(k, p, spans, observe, x) {
      var h :| h in hits && h.start <= h.end <= size && SealOfHit(k, p.text, p.origin, h) == Some(x);
      assert |p.text[h.start..h.end]| == h.end - h.start && |text[s.start..s.end]| == s.end - s.start;
    }
  }
}
