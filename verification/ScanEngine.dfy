/** The engine's own loops, each proved to compute the pass it implements. The caches of built
    tokens are part of them: sealing is deterministic, so a cached token is the token. */
module ScanEngine {
  import opened Text
  import opened Sealing
  import opened Segments
  import opened Ordering
  import opened Scan
  import opened Detections

  ghost predicate Cached(k: Sealer, cache: map<(string, string), string>) {
    forall key | key in cache :: BuildToken(k, key.0, key.1) == Ok(cache[key])
  }

  function AfterSegments(done: seq<Segment>, r: Result<seq<Segment>, ScanError>): Result<seq<Segment>, ScanError> {
    match r
    case Err(e) => Err(e)
    case Ok(x) => Ok(done + x)
  }

  lemma {:induction false} AfterNone(r: Result<seq<Segment>, ScanError>)
    ensures AfterSegments([], r) == r
  {
    if r.Ok? {
      assert [] + r.value == r.value;
    }
  }

  lemma {:induction false} AfterTwo(a: seq<Segment>, b: seq<Segment>, r: Result<seq<Segment>, ScanError>)
    ensures AfterSegments(a, AfterSegments(b, r)) == AfterSegments(a + b, r)
  {
    if r.Ok? {
      assert a + (b + r.value) == (a + b) + r.value;
    }
  }

  /** The candidates of a rule, pattern by pattern. */
  method CollectCandidates(rule: Rule, segment: string) returns (candidates: seq<Hit>)
    ensures candidates == Candidates(rule, segment, rule.patterns)
  {
    hide ValidMatches;
    candidates := [];
    for i := 0 to |rule.patterns|
      invariant candidates + Candidates(rule, segment, rule.patterns[i..]) == Candidates(rule, segment, rule.patterns)
    {
      ghost var rest := Candidates(rule, segment, rule.patterns[i + 1..]);
      assert rule.patterns[i..][1..] == rule.patterns[i + 1..];
      var matches := rule.patterns[i](segment);
      var found := CollectMatches(rule, segment, matches);
      assert candidates + (found + rest) == (candidates + found) + rest;
      candidates := candidates + found;
    }
  }

  lemma {:induction false} ValidMatchesStep(rule: Rule, segment: string, matches: seq<(nat, nat)>, j: nat)
    requires j < |matches|
    ensures var (start, end) := matches[j];
            var rest := ValidMatches(rule, segment, matches[j + 1..]);
            ValidMatches(rule, segment, matches[j..]) ==
            if start <= end <= |segment| && rule.Accepts(segment[start..end]) then [Hit(start, end, rule.category)] + rest else rest
  {
    hide Rule.Accepts;
    assert matches[j..][0] == matches[j] && matches[j..][1..] == matches[j + 1..];
  }

  lemma {:induction false} NoMatches(rule: Rule, segment: string)
    ensures ValidMatches(rule, segment, []) == []
  {
  }

  /** Of one pattern's matches, those in the segment that the rule's check accepts. */
  method CollectMatches(rule: Rule, segment: string, matches: seq<(nat, nat)>) returns (found: seq<Hit>)
    ensures found == ValidMatches(rule, segment, matches)
  {
    hide ValidMatches, Rule.Accepts;
    found := [];
    assert matches[0..] == matches;
    for j := 0 to |matches|
      invariant ValidMatches(rule, segment, matches) == found + ValidMatches(rule, segment, matches[j..])
    {
      ValidMatchesStep(rule, segment, matches, j);
      var (start, end) := matches[j];
      if start <= end <= |segment| && rule.Accepts(segment[start..end]) {
        ghost var rest := ValidMatches(rule, segment, matches[j + 1..]);
        assert found + ([Hit(start, end, rule.category)] + rest) == (found + [Hit(start, end, rule.category)]) + rest;
        found := found + [Hit(start, end, rule.category)];
      }
    }
    assert matches[|matches|..] == [];
    NoMatches(rule, segment);
  }

  /** Keeps each candidate that begins after the last kept one ends. */
  method ChooseHits(candidates: seq<Hit>) returns (hits: seq<Hit>)
    ensures hits == Greedy(candidates, 0)
  {
    hits := [];
    var lastEnd := 0;
    for i := 0 to |candidates|
      invariant hits + Greedy(candidates[i..], lastEnd) == Greedy(candidates, 0)
    {
      assert candidates[i..][1..] == candidates[i + 1..];
      if candidates[i].start >= lastEnd {
        hits := hits + [candidates[i]];
        lastEnd := candidates[i].end;
      }
    }
  }

  /** Builds a token, or takes it from the cache. */
  method CachedToken(k: Sealer, category: string, value: string, cache: map<(string, string), string>)
    returns (token: Result<string, ScanError>, next: map<(string, string), string>)
    requires Cached(k, cache)
    ensures token == BuildToken(k, category, value) && Cached(k, next)
  {
    next := cache;
    if (category, value) in cache {
      token := Ok(cache[(category, value)]);
    } else {
      token := BuildToken(k, category, value);
      if token.Ok? {
        next := cache[(category, value) := token.value];
      }
    }
  }

  lemma {:induction false} CarveNext(k: Sealer, text: string, origin: nat, hits: seq<Hit>, last: nat, i: nat)
    requires i < |hits| && InOrder(hits[i..], last, |text|)
    ensures var h := hits[i];
            && last <= h.start <= h.end <= |text| && InOrder(hits[i + 1..], h.end, |text|)
            && Carve(k, text, origin, hits[i..], last) ==
               match BuildToken(k, h.category, text[h.start..h.end])
               case Err(e) => Err(e)
               case Ok(token) =>
                 AfterSegments(Gap(text, origin, last, h.start) + [Sealed(token, h.category, text[h.start..h.end], origin + h.start)],
                               Carve(k, text, origin, hits[i + 1..], h.end))
  {
    hide BuildToken, Gap;
    assert hits[i..][1..] == hits[i + 1..];
    var h := hits[i];
    var token, rest := BuildToken(k, h.category, text[h.start..h.end]), Carve(k, text, origin, hits[i + 1..], h.end);
    if token.Ok? && rest.Ok? {
      var seal := Sealed(token.value, h.category, text[h.start..h.end], origin + h.start);
      assert Gap(text, origin, last, h.start) + ([seal] + rest.value) == Gap(text, origin, last, h.start) + [seal] + rest.value;
    }
  }

  lemma {:induction false} CarveEnd(k: Sealer, text: string, origin: nat, last: nat)
    requires last <= |text|
    ensures InOrder([], last, |text|) && Carve(k, text, origin, [], last) == Ok(Gap(text, origin, last, |text|))
  {
  }

  function WithCount(r: Result<seq<Segment>, ScanError>, count: nat): Result<(seq<Segment>, nat), ScanError> {
    match r
    case Err(e) => Err(e)
    case Ok(x) => Ok((x, count))
  }

  /** Finds the validated hits of a rule in one plain segment and, if the rule seals, replaces them. */
  method TokenizeSegment(k: Sealer, rule: Rule, segment: string, origin: nat)
    returns (res: Result<(seq<Segment>, nat), ScanError>)
    ensures res == WithCount(Scan.TokenizeSegment(k, rule, segment, origin), |RuleHits(rule, segment)|)
  {
    hide BuildToken, Candidates, Greedy, Sort, Carve, Gap;
    RuleHitsInOrder(rule, segment);
    var candidates := CollectCandidates(rule, segment);
    var hits := ChooseHits(Sort(candidates, Earlier));
    if hits == [] || !rule.tokenize {
      return Ok(([Plain(segment, origin)], |hits|));
    }
    var result: seq<Segment> := [];
    var cache: map<(string, string), string> := map[];
    var last: nat := 0;
    assert hits[0..] == hits;
    AfterNone(Carve(k, segment, origin, hits, 0));
    for i := 0 to |hits|
      invariant last <= |segment| && InOrder(hits[i..], last, |segment|) && Cached(k, cache)
      invariant Carve(k, segment, origin, hits, 0) == AfterSegments(result, Carve(k, segment, origin, hits[i..], last))
    {
      CarveNext(k, segment, origin, hits, last, i);
      var h := hits[i];
      var value := segment[h.start..h.end];
      var token;
      token, cache := CachedToken(k, h.category, value, cache);
      if token.Err? {
        return Err(token.error);
      }
      var piece := Gap(segment, origin, last, h.start) + [Sealed(token.value, h.category, value, origin + h.start)];
      AfterTwo(result, piece, Carve(k, segment, origin, hits[i + 1..], h.end));
      result := result + piece;
      last := h.end;
    }
    CarveEnd(k, segment, origin, last);
    assert hits[|hits|..] == [];
    return Ok((result + Gap(segment, origin, last, |segment|), |hits|));
  }

  lemma {:induction false} AppendIsAfter(x: seq<Segment>, r: Result<seq<Segment>, ScanError>)
    ensures Append(Ok(x), r) == AfterSegments(x, r)
  {
  }

  /** Runs one rule over every plain segment, and counts its hits. */
  method ApplyRule(k: Sealer, rule: Rule, segments: seq<Segment>) returns (res: Result<(seq<Segment>, nat), ScanError>)
    ensures res == WithCount(Scan.ApplyRule(k, rule, segments), RuleCount(rule, segments))
  {
    hide Scan.TokenizeSegment, Append, RuleHits;
    var out: seq<Segment> := [];
    var total := 0;
    AfterNone(Scan.ApplyRule(k, rule, segments));
    assert segments[0..] == segments;
    for i := 0 to |segments|
      invariant Scan.ApplyRule(k, rule, segments) == AfterSegments(out, Scan.ApplyRule(k, rule, segments[i..]))
      invariant RuleCount(rule, segments) == total + RuleCount(rule, segments[i..])
    {
      assert segments[i..][0] == segments[i] && segments[i..][1..] == segments[i + 1..];
      ghost var rest := Scan.ApplyRule(k, rule, segments[i + 1..]);
      var piece := [segments[i]];
      if segments[i].Plain? {
        var produced := TokenizeSegment(k, rule, segments[i].text, segments[i].origin);
        if produced.Err? {
          AppendError(produced.error, rest);
          return Err(produced.error);
        }
        total := total + produced.value.1;
        piece := produced.value.0;
      }
      AppendIsAfter(piece, rest);
      AfterTwo(out, piece, rest);
      out := out + piece;
    }
    assert segments[|segments|..] == [] && out + [] == out;
    return Ok((out, total));
  }

  lemma {:induction false} AppendError(e: ScanError, r: Result<seq<Segment>, ScanError>)
    ensures Append(Err(e), r) == Err(e)
  {
  }

  /** Keeps the well-formed spans, earliest first, that overlap no kept one. */
  method NormalizeExternal(text: string, spans: seq<ExternalSpan>) returns (kept: seq<ExternalSpan>)
    ensures kept == Normalize(text, spans)
  {
    hide Sort;
    var valid: seq<ExternalSpan> := [];
    for i := 0 to |spans|
      invariant valid + WellFormedOnes(spans[i..], |text|) == WellFormedOnes(spans, |text|)
    {
      assert spans[i..][1..] == spans[i + 1..];
      if WellFormed(spans[i], |text|) {
        valid := valid + [spans[i]];
      }
    }
    assert valid == WellFormedOnes(spans, |text|);
    var sorted := Sort(valid, EarlierSpan);
    kept := [];
    var lastEnd := 0;
    for i := 0 to |sorted|
      invariant kept + NonOverlapping(sorted[i..], lastEnd) == NonOverlapping(sorted, 0)
    {
      assert sorted[i..][1..] == sorted[i + 1..];
      if sorted[i].start >= lastEnd {
        lastEnd := sorted[i].end;
        kept := kept + [sorted[i]];
      }
    }
  }

  lemma {:induction false} CountHitAt(ds: seq<Detection>, f: Found, i: nat)
    requires i <= |ds| && forall j | 0 <= j < i :: ds[j].category != f.category
    ensures i == |ds| ==> CountHit(ds, f) == ds + [Detection(f.category, f.tokenized, 1)]
    ensures i < |ds| && ds[i].category == f.category ==> CountHit(ds, f) == ds[i := ds[i].(count := ds[i].count + 1)]
    decreases i
  {
    if i > 0 {
      var rest := ds[1..];
      CountHitAt(rest, f, i - 1);
      if i == |ds| {
        assert ds == [ds[0]] + rest;
      } else if ds[i].category == f.category {
        var more := ds[i].(count := ds[i].count + 1);
        assert ds[i := more] == [ds[0]] + rest[i - 1 := more];
      }
    }
  }

  /** Counts one hit in place. */
  method CountInPlace(ds: seq<Detection>, f: Found) returns (next: seq<Detection>)
    ensures next == CountHit(ds, f)
  {
    hide CountHit;
    for i := 0 to |ds|
      invariant forall j | 0 <= j < i :: ds[j].category != f.category
    {
      if ds[i].category == f.category {
        CountHitAt(ds, f, i);
        return ds[i := ds[i].(count := ds[i].count + 1)];
      }
    }
    CountHitAt(ds, f, |ds|);
    return ds + [Detection(f.category, f.tokenized, 1)];
  }

  /** One span of the list at a plain segment: skipped, observed or sealed. */
  lemma {:induction false} FoundNext(size: nat, origin: nat, spans: seq<ExternalSpan>, observe: set<string>, last: nat, i: nat)
    requires i < |spans| && last <= size && forall s | s in spans :: s.start <= s.end
    ensures var s := spans[i];
            var inside := s.start >= origin && s.end <= origin + size && s.start - origin >= last;
            && s.start <= s.end
            && FoundInSegment(size, origin, spans[i..], observe, last) == (
                 if !inside then FoundInSegment(size, origin, spans[i + 1..], observe, last)
                 else [Found(s.category, s.category !in observe)]
                      + FoundInSegment(size, origin, spans[i + 1..], observe, if s.category in observe then last else s.end - origin))
            && ExternalHits(size, origin, spans[i..], observe, last) == (
                 if !inside || s.category in observe then ExternalHits(size, origin, spans[i + 1..], observe, last)
                 else [Hit(s.start - origin, s.end - origin, s.category)]
                      + ExternalHits(size, origin, spans[i + 1..], observe, s.end - origin))
  {
    assert spans[i] in spans;
    assert spans[i..][0] == spans[i] && spans[i..][1..] == spans[i + 1..];
  }

  lemma {:induction false} CountNext(ds: seq<Detection>, f: Found, rest: seq<Found>)
    ensures CountAll(ds, [f] + rest) == CountAll(CountHit(ds, f), rest)
  {
    assert ([f] + rest)[1..] == rest;
  }

  /** Seals the spans that lie inside one plain segment, and counts them and the observed ones. */
  method SealInSegment(k: Sealer, text: string, origin: nat, spans: seq<ExternalSpan>, observe: set<string>,
                       cache: map<(string, string), string>, detections: seq<Detection>)
    returns (res: Result<seq<Segment>, ScanError>, next: map<(string, string), string>, counted: seq<Detection>)
    requires (forall s | s in spans :: s.start <= s.end) && Cached(k, cache)
    ensures res == Carve(k, text, origin, ExternalHits(|text|, origin, spans, observe, 0), 0)
    ensures Cached(k, next)
    ensures res.Ok? ==> counted == CountAll(detections, FoundInSegment(|text|, origin, spans, observe, 0))
  {
    hide BuildToken, Carve, Gap, FoundInSegment, ExternalHits, CountHit, CountAll;
    next, counted := cache, detections;
    var out: seq<Segment> := [];
    var last: nat := 0;
    ghost var goal := Carve(k, text, origin, ExternalHits(|text|, origin, spans, observe, 0), 0);
    ghost var tally := CountAll(detections, FoundInSegment(|text|, origin, spans, observe, 0));
    AfterNone(goal);
    assert spans[0..] == spans;
    for i := 0 to |spans|
      invariant last <= |text| && Cached(k, next)
      invariant goal == AfterSegments(out, Carve(k, text, origin, ExternalHits(|text|, origin, spans[i..], observe, last), last))
      invariant tally == CountAll(counted, FoundInSegment(|text|, origin, spans[i..], observe, last))
    {
      var s := spans[i];
      FoundNext(|text|, origin, spans, observe, last, i);
      if s.start >= origin && s.end <= origin + |text| && s.start - origin >= last {
        var start, end := s.start - origin, s.end - origin;
        var found := Found(s.category, s.category !in observe);
        CountNext(counted, found, FoundInSegment(|text|, origin, spans[i + 1..], observe, if s.category in observe then last else end));
        if s.category in observe {
          counted := CountInPlace(counted, found);
          continue;
        }
        ghost var hits := ExternalHits(|text|, origin, spans[i..], observe, last);
        assert hits[0..] == hits && hits[1..] == ExternalHits(|text|, origin, spans[i + 1..], observe, end);
        CarveNext(k, text, origin, hits, last, 0);
        var token;
        token, next := CachedToken(k, s.category, text[start..end], next);
        if token.Err? {
          res := Err(token.error);
          return;
        }
        var piece := Gap(text, origin, last, start) + [Sealed(token.value, s.category, text[start..end], s.start)];
        AfterTwo(out, piece, Carve(k, text, origin, hits[1..], end));
        out := out + piece;
        counted := CountInPlace(counted, found);
        last := end;
      }
    }
    assert spans[|spans|..] == [];
    NoSpansLeft(|text|, origin, observe, last, counted);
    CarveEnd(k, text, origin, last);
    res := Ok(out + Gap(text, origin, last, |text|));
  }

  lemma {:induction false} NoSpansLeft(size: nat, origin: nat, observe: set<string>, last: nat, ds: seq<Detection>)
    requires last <= size
    ensures ExternalHits(size, origin, [], observe, last) == []
    ensures CountAll(ds, FoundInSegment(size, origin, [], observe, last)) == ds
  {
  }

  lemma {:induction false} CountConcat(ds: seq<Detection>, a: seq<Found>, b: seq<Found>)
    ensures CountAll(ds, a + b) == CountAll(CountAll(ds, a), b)
    decreases |a|
  {
    hide CountHit;
    if a == [] {
      assert a + b == b;
    } else {
      assert (a + b)[0] == a[0] && (a + b)[1..] == a[1..] + b;
      CountConcat(CountHit(ds, a[0]), a[1..], b);
    }
  }

  lemma {:induction false} FoundInNext(segments: seq<Segment>, spans: seq<ExternalSpan>, observe: set<string>, i: nat, ds: seq<Detection>)
    requires i < |segments| && forall s | s in spans :: s.start <= s.end
    ensures var rest := FoundIn(segments[i + 1..], spans, observe);
            CountAll(ds, FoundIn(segments[i..], spans, observe)) ==
            if segments[i].Plain? then
              CountAll(CountAll(ds, FoundInSegment(|segments[i].text|, segments[i].origin, spans, observe, 0)), rest)
            else CountAll(ds, rest)
  {
    hide FoundInSegment, CountAll;
    assert segments[i..][0] == segments[i] && segments[i..][1..] == segments[i + 1..];
    var rest := FoundIn(segments[i + 1..], spans, observe);
    if segments[i].Plain? {
      CountConcat(ds, FoundInSegment(|segments[i].text|, segments[i].origin, spans, observe, 0), rest);
    } else {
      assert [] + rest == rest;
    }
  }

  lemma {:induction false} NoSegmentsLeft(spans: seq<ExternalSpan>, observe: set<string>, ds: seq<Detection>)
    requires forall s | s in spans :: s.start <= s.end
    ensures CountAll(ds, FoundIn([], spans, observe)) == ds
  {
  }

  /** Seals the detector spans in every plain segment. */
  method ApplyExternal(k: Sealer, segments: seq<Segment>, spans: seq<ExternalSpan>, observe: set<string>)
    returns (res: Result<(seq<Segment>, seq<Detection>), ScanError>)
    requires forall s | s in spans :: s.start <= s.end
    ensures match Scan.ApplyExternal(k, segments, spans, observe)
            case Err(e) => res == Err(e)
            case Ok(x) => res == Ok((x, CountAll([], FoundIn(segments, spans, observe))))
  {
    hide Carve, ExternalHits, Append, FoundIn, FoundInSegment, CountAll;
    var out: seq<Segment> := [];
    var detections: seq<Detection> := [];
    var cache: map<(string, string), string> := map[];
    AfterNone(Scan.ApplyExternal(k, segments, spans, observe));
    assert segments[0..] == segments;
    ghost var tally := CountAll([], FoundIn(segments, spans, observe));
    for i := 0 to |segments|
      invariant Cached(k, cache)
      invariant Scan.ApplyExternal(k, segments, spans, observe)
             == AfterSegments(out, Scan.ApplyExternal(k, segments[i..], spans, observe))
      invariant tally == CountAll(detections, FoundIn(segments[i..], spans, observe))
    {
      assert segments[i..][0] == segments[i] && segments[i..][1..] == segments[i + 1..];
      ghost var rest := Scan.ApplyExternal(k, segments[i + 1..], spans, observe);
      FoundInNext(segments, spans, observe, i, detections);
      var piece := [segments[i]];
      if segments[i].Plain? {
        var produced;
        produced, cache, detections :=
          SealInSegment(k, segments[i].text, segments[i].origin, spans, observe, cache, detections);
        if produced.Err? {
          AppendError(produced.error, rest);
          return Err(produced.error);
        }
        piece := produced.value;
      }
      AppendIsAfter(piece, rest);
      AfterTwo(out, piece, rest);
      out := out + piece;
    }
    assert segments[|segments|..] == [] && out + [] == out;
    NoSegmentsLeft(spans, observe, detections);
    return Ok((out, detections));
  }

  lemma {:induction false} RulesStep(k: Sealer, rules: seq<Rule>, segments: seq<Segment>, i: nat)
    requires i < |rules|
    ensures var r := Scan.ApplyRule(k, rules[i], segments);
            && (r.Err? ==> ApplyRules(k, rules[i..], segments) == Err(r.error))
            && (r.Ok? ==>
                  && ApplyRules(k, rules[i..], segments) == ApplyRules(k, rules[i + 1..], r.value)
                  && RuleDetections(k, rules[i..], segments)
                     == Hits(rules[i], RuleCount(rules[i], segments)) + RuleDetections(k, rules[i + 1..], r.value))
  {
    hide Scan.ApplyRule, RuleCount;
    assert rules[i..][0] == rules[i] && rules[i..][1..] == rules[i + 1..];
  }

  function Hits(rule: Rule, count: nat): seq<Detection> {
    if count > 0 then [Detection(rule.category, rule.tokenize, count)] else []
  }

  lemma {:induction false} NoMoreRules(k: Sealer, segments: seq<Segment>)
    ensures ApplyRules(k, [], segments) == Ok(segments) && RuleDetections(k, [], segments) == []
  {
  }

  /** The rules, one after the other, each over what the last one left. */
  method ScanWithRules(k: Sealer, rules: seq<Rule>, masked: seq<Segment>)
    returns (res: Result<(seq<Segment>, seq<Detection>), ScanError>)
    ensures match ApplyRules(k, rules, masked)
            case Err(e) => res == Err(e)
            case Ok(left) => res == Ok((left, RuleDetections(k, rules, masked)))
  {
    hide Scan.ApplyRule, RuleCount, ApplyRules, RuleDetections;
    var segments := masked;
    var detections: seq<Detection> := [];
    assert rules[0..] == rules;
    assert detections + RuleDetections(k, rules, segments) == RuleDetections(k, rules, segments);
    for i := 0 to |rules|
      invariant ApplyRules(k, rules, masked) == ApplyRules(k, rules[i..], segments)
      invariant ApplyRules(k, rules, masked).Ok? ==>
                  RuleDetections(k, rules, masked) == detections + RuleDetections(k, rules[i..], segments)
    {
      RulesStep(k, rules, segments, i);
      var applied := ApplyRule(k, rules[i], segments);
      if applied.Err? {
        return Err(applied.error);
      }
      var found := Hits(rules[i], applied.value.1);
      ghost var rest := RuleDetections(k, rules[i + 1..], applied.value.0);
      assert detections + (found + rest) == (detections + found) + rest;
      detections := detections + found;
      segments := applied.value.0;
    }
    assert rules[|rules|..] == [] && detections + [] == detections;
    NoMoreRules(k, segments);
    return Ok((segments, detections));
  }

  /** The whole scan: mask, every rule, then the detector spans the rules left room for. */
  method ScanTextWithExternal(k: Sealer, rules: seq<Rule>, text: string, external: seq<ExternalSpan>)
    returns (res: Result<ScanOutcome, ScanError>)
    ensures res == Outcome(k, rules, text, external)
  {
    hide ApplyRules, RuleDetections, Scan.ApplyExternal, Normalize, FoundIn, CountAll, MaskedSegments, ObserveOnly;
    var masked := MaskSpans(text);
    var ruled := ScanWithRules(k, rules, masked);
    if ruled.Err? {
      return Err(ruled.error);
    }
    var kept := NormalizeExternal(text, external);
    NormalizeIsOrdered(text, external);
    var sealed := ApplyExternal(k, ruled.value.0, kept, ObserveOnly(rules));
    if sealed.Err? {
      return Err(sealed.error);
    }
    return Ok(ScanOutcome(Shown(sealed.value.0), ruled.value.1, sealed.value.1));
  }
}
