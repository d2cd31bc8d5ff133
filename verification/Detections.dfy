/** What a scan reports: how many values of each category it sealed, or saw and passed. */
module Detections {
  import opened Text
  import opened Sealing
  import opened Segments
  import opened Scan
  import TokenSpan

  /** A category's aggregate; a category that is only observed is passed, not tokenized. */
  datatype Detection = Detection(category: string, tokenized: bool, count: nat)

  /** A counted hit. */
  datatype Found = Found(category: string, tokenized: bool)

  datatype ScanOutcome = ScanOutcome(text: string, detections: seq<Detection>, external: seq<Detection>)

  // ---------- rule hits ----------

  /** The hits of a rule in all plain segments. */
  function RuleCount(rule: Rule, segments: seq<Segment>): nat {
    if segments == [] then 0
    else (if segments[0].Plain? then |RuleHits(rule, segments[0].text)| else 0) + RuleCount(rule, segments[1..])
  }

  /** One entry for each rule that hit, in rule order. */
  function RuleDetections(k: Sealer, rules: seq<Rule>, segments: seq<Segment>): seq<Detection> {
    if |rules| == 0 then []
    else
      var count := RuleCount(rules[0], segments);
      match ApplyRule(k, rules[0], segments)
      case Err(_) => []
      case Ok(next) =>
        (if count > 0 then [Detection(rules[0].category, rules[0].tokenize, count)] else [])
        + RuleDetections(k, rules[1..], next)
  }

  // ---------- detector spans ----------

  /** The spans counted in one plain segment: sealed ones, and observed ones that no sealed one overlaps. */
  function FoundInSegment(size: nat, origin: nat, spans: seq<ExternalSpan>, observe: set<string>, last: nat): seq<Found>
    requires forall s | s in spans :: s.start <= s.end
  {
    if spans == [] then []
    else
      var s := spans[0];
      if s.start >= origin && s.end <= origin + size && s.start - origin >= last then
        [Found(s.category, s.category !in observe)]
        + FoundInSegment(size, origin, spans[1..], observe, if s.category in observe then last else s.end - origin)
      else FoundInSegment(size, origin, spans[1..], observe, last)
  }

  function FoundIn(segments: seq<Segment>, spans: seq<ExternalSpan>, observe: set<string>): seq<Found>
    requires forall s | s in spans :: s.start <= s.end
  {
    if segments == [] then []
    else
      (if segments[0].Plain? then FoundInSegment(|segments[0].text|, segments[0].origin, spans, observe, 0) else [])
      + FoundIn(segments[1..], spans, observe)
  }

  /** Counts one hit: the category's entry grows, or a first entry is added at the end. */
  function CountHit(ds: seq<Detection>, f: Found): seq<Detection> {
    if ds == [] then [Detection(f.category, f.tokenized, 1)]
    else if ds[0].category == f.category then [ds[0].(count := ds[0].count + 1)] + ds[1..]
    else [ds[0]] + CountHit(ds[1..], f)
  }

  function CountAll(ds: seq<Detection>, found: seq<Found>): seq<Detection>
    decreases |found|
  {
    if found == [] then ds else CountAll(CountHit(ds, found[0]), found[1..])
  }

  /** A scan with its report. */
  function Outcome(k: Sealer, rules: seq<Rule>, text: string, external: seq<ExternalSpan>): Result<ScanOutcome, ScanError> {
    var masked := MaskedSegments(text);
    match ApplyRules(k, rules, masked)
    case Err(e) => Err(e)
    case Ok(left) =>
      NormalizeIsOrdered(text, external);
      var spans, observe := Normalize(text, external), ObserveOnly(rules);
      match ApplyExternal(k, left, spans, observe)
      case Err(e) => Err(e)
      case Ok(sealed) =>
        Ok(ScanOutcome(Shown(sealed), RuleDetections(k, rules, masked), CountAll([], FoundIn(left, spans, observe))))
  }

  // ---------- the report is what was sealed ----------

  /** How many tokens of a category a scan has put in. */
  function SealedOf(segments: seq<Segment>, category: string): nat {
    if segments == [] then 0
    else (if segments[0].Sealed? && segments[0].category == category then 1 else 0) + SealedOf(segments[1..], category)
  }

  /** How many sealed values of a category some entries report. */
  function Reported(ds: seq<Detection>, category: string): nat {
    if ds == [] then 0
    else (if ds[0].tokenized && ds[0].category == category then ds[0].count else 0) + Reported(ds[1..], category)
  }

  function HitsOf(hits: seq<Hit>, category: string): nat {
    if hits == [] then 0 else (if hits[0].category == category then 1 else 0) + HitsOf(hits[1..], category)
  }

  function SealedAmong(found: seq<Found>, category: string): nat {
    if found == [] then 0
    else (if found[0].tokenized && found[0].category == category then 1 else 0) + SealedAmong(found[1..], category)
  }

  lemma {:induction false} SealedConcat(a: seq<Segment>, b: seq<Segment>, c: string)
    ensures SealedOf(a + b, c) == SealedOf(a, c) + SealedOf(b, c)
    decreases |a|
  {
    if a == [] {
      assert a + b == b;
    } else {
      assert (a + b)[0] == a[0] && (a + b)[1..] == a[1..] + b;
      SealedConcat(a[1..], b, c);
    }
  }

  lemma {:induction false} AmongConcat(a: seq<Found>, b: seq<Found>, c: string)
    ensures SealedAmong(a + b, c) == SealedAmong(a, c) + SealedAmong(b, c)
    decreases |a|
  {
    if a == [] {
      assert a + b == b;
    } else {
      assert (a + b)[0] == a[0] && (a + b)[1..] == a[1..] + b;
      AmongConcat(a[1..], b, c);
    }
  }

  lemma {:induction false} ReportedConcat(a: seq<Detection>, b: seq<Detection>, c: string)
    ensures Reported(a + b, c) == Reported(a, c) + Reported(b, c)
    decreases |a|
  {
    if a == [] {
      assert a + b == b;
    } else {
      assert (a + b)[0] == a[0] && (a + b)[1..] == a[1..] + b;
      ReportedConcat(a[1..], b, c);
    }
  }

  lemma {:induction false} OneSealed(s: Segment, c: string)
    ensures SealedOf([s], c) == if s.Sealed? && s.category == c then 1 else 0
  {
  }

  lemma {:induction false} GapSealsNothing(text: string, origin: nat, from: nat, to: nat, c: string)
    requires from <= to <= |text|
    ensures SealedOf(Gap(text, origin, from, to), c) == 0
  {
  }

  /** Carving puts in one token for each hit. */
  lemma {:induction false} CarveSealsHits(k: Sealer, text: string, origin: nat, hits: seq<Hit>, last: nat, c: string)
    requires InOrder(hits, last, |text|) && Carve(k, text, origin, hits, last).Ok?
    ensures SealedOf(Carve(k, text, origin, hits, last).value, c) == HitsOf(hits, c)
    decreases |hits|
  {
    hide BuildToken, Gap, SealedOf;
    if hits == [] {
      GapSealsNothing(text, origin, last, |text|, c);
    } else {
      var h := hits[0];
      var rest := Carve(k, text, origin, hits[1..], h.end).value;
      var seal := Sealed(BuildToken(k, h.category, text[h.start..h.end]).value, h.category, text[h.start..h.end], origin + h.start);
      CarveSealsHits(k, text, origin, hits[1..], h.end, c);
      GapSealsNothing(text, origin, last, h.start, c);
      OneSealed(seal, c);
      SealedConcat([seal], rest, c);
      SealedConcat(Gap(text, origin, last, h.start), [seal] + rest, c);
    }
  }

  lemma {:induction false} HitsOfOneCategory(hits: seq<Hit>, category: string, c: string)
    requires forall h | h in hits :: h.category == category
    ensures HitsOf(hits, c) == if c == category then |hits| else 0
  {
    if hits != [] {
      assert hits[0] in hits;
      HitsOfOneCategory(hits[1..], category, c);
    }
  }

  lemma {:induction false} SegmentCounts(k: Sealer, rule: Rule, text: string, origin: nat, c: string)
    requires TokenizeSegment(k, rule, text, origin).Ok?
    ensures SealedOf(TokenizeSegment(k, rule, text, origin).value, c)
         == if rule.tokenize && c == rule.category then |RuleHits(rule, text)| else 0
  {
    hide RuleHits, Carve;
    RuleHitsInOrder(rule, text);
    var hits := RuleHits(rule, text);
    OneSealed(Plain(text, origin), c);
    if hits != [] && rule.tokenize {
      CarveSealsHits(k, text, origin, hits, 0, c);
      HitsOfOneCategory(hits, rule.category, c);
    }
  }

  /** A rule that seals puts in as many tokens as it counts; one that observes puts in none. */
  lemma {:induction false} RuleCounts(k: Sealer, rule: Rule, segments: seq<Segment>, c: string)
    requires ApplyRule(k, rule, segments).Ok?
    ensures SealedOf(ApplyRule(k, rule, segments).value, c)
         == SealedOf(segments, c) + if rule.tokenize && c == rule.category then RuleCount(rule, segments) else 0
    decreases |segments|
  {
    hide RuleHits, TokenizeSegment, SealedOf;
    if segments == [] {
      SealedInNothing(c);
    } else {
      var s, rest := segments[0], segments[1..];
      RuleCounts(k, rule, rest, c);
      assert segments == [s] + rest;
      SealedConcat([s], rest, c);
      OneSealed(s, c);
      var piece := if s.Plain? then TokenizeSegment(k, rule, s.text, s.origin).value else [s];
      SealedConcat(piece, ApplyRule(k, rule, rest).value, c);
      if s.Plain? {
        SegmentCounts(k, rule, s.text, s.origin, c);
      }
    }
  }

  lemma {:induction false} SealedInNothing(c: string)
    ensures SealedOf([], c) == 0
  {
  }

  lemma {:induction false} RulesCount(k: Sealer, rules: seq<Rule>, segments: seq<Segment>, c: string)
    requires ApplyRules(k, rules, segments).Ok?
    ensures SealedOf(ApplyRules(k, rules, segments).value, c) == SealedOf(segments, c) + Reported(RuleDetections(k, rules, segments), c)
    decreases |rules|
  {
    hide ApplyRule, RuleCount, SealedOf;
    if |rules| != 0 {
      var next := ApplyRule(k, rules[0], segments).value;
      RuleCounts(k, rules[0], segments, c);
      RulesCount(k, rules[1..], next, c);
      var count := RuleCount(rules[0], segments);
      var first := if count > 0 then [Detection(rules[0].category, rules[0].tokenize, count)] else [];
      ReportedConcat(first, RuleDetections(k, rules[1..], next), c);
    }
  }

  /** In one plain segment, the counted spans that are not merely observed are the ones sealed. */
  lemma {:induction false} FoundAreHits(size: nat, origin: nat, spans: seq<ExternalSpan>, observe: set<string>, last: nat, c: string)
    requires last <= size && forall s | s in spans :: s.start <= s.end
    ensures SealedAmong(FoundInSegment(size, origin, spans, observe, last), c) == HitsOf(ExternalHits(size, origin, spans, observe, last), c)
    decreases |spans|
  {
    if spans != [] {
      var s, rest := spans[0], spans[1..];
      assert s in spans && forall x | x in rest :: x in spans;
      if s.start >= origin && s.end <= origin + size && s.start - origin >= last {
        var next := if s.category in observe then last else s.end - origin;
        FoundAreHits(size, origin, rest, observe, next, c);
        var later := FoundInSegment(size, origin, rest, observe, next);
        var hits := ExternalHits(size, origin, rest, observe, next);
        assert ([Found(s.category, s.category !in observe)] + later)[1..] == later;
        assert ([Hit(s.start - origin, s.end - origin, s.category)] + hits)[1..] == hits;
      } else {
        FoundAreHits(size, origin, rest, observe, last, c);
      }
    }
  }

  lemma {:induction false} ExternalCounts(k: Sealer, segments: seq<Segment>, spans: seq<ExternalSpan>, observe: set<string>, c: string)
    requires (forall s | s in spans :: s.start <= s.end) && ApplyExternal(k, segments, spans, observe).Ok?
    ensures SealedOf(ApplyExternal(k, segments, spans, observe).value, c)
         == SealedOf(segments, c) + SealedAmong(FoundIn(segments, spans, observe), c)
    decreases |segments|
  {
    hide Carve, ExternalHits, FoundInSegment, SealedOf, SealedAmong;
    if segments == [] {
      SealedInNothing(c);
      NothingAmong(c);
    } else {
      var s, rest := segments[0], segments[1..];
      ExternalCounts(k, rest, spans, observe, c);
      assert segments == [s] + rest;
      SealedConcat([s], rest, c);
      OneSealed(s, c);
      var after := ApplyExternal(k, rest, spans, observe).value;
      var found := FoundIn(rest, spans, observe);
      if s.Plain? {
        var hits := ExternalHits(|s.text|, s.origin, spans, observe, 0);
        CarveSealsHits(k, s.text, s.origin, hits, 0, c);
        FoundAreHits(|s.text|, s.origin, spans, observe, 0, c);
        SealedConcat(Carve(k, s.text, s.origin, hits, 0).value, after, c);
        AmongConcat(FoundInSegment(|s.text|, s.origin, spans, observe, 0), found, c);
      } else {
        SealedConcat([s], after, c);
        assert [] + found == found;
      }
    }
  }

  lemma {:induction false} NothingAmong(c: string)
    ensures SealedAmong([], c) == 0
  {
  }

  /** Every entry says of its category whether it is sealed or only observed. */
  predicate Consistent(ds: seq<Detection>, observe: set<string>) {
    forall d | d in ds :: d.tokenized == (d.category !in observe)
  }

  lemma {:induction false} CountHitReports(ds: seq<Detection>, f: Found, observe: set<string>, c: string)
    requires Consistent(ds, observe) && f.tokenized == (f.category !in observe)
    ensures Consistent(CountHit(ds, f), observe)
    ensures Reported(CountHit(ds, f), c) == Reported(ds, c) + if f.tokenized && f.category == c then 1 else 0
  {
    if ds != [] {
      assert ds[0] in ds && forall d | d in ds[1..] :: d in ds;
      if ds[0].category != f.category {
        CountHitReports(ds[1..], f, observe, c);
      }
      var next := CountHit(ds, f);
      assert next[1..] == if ds[0].category == f.category then ds[1..] else CountHit(ds[1..], f);
      assert forall d | d in next :: d == next[0] || d in next[1..];
    }
  }

  lemma {:induction false} CountAllReports(ds: seq<Detection>, found: seq<Found>, observe: set<string>, c: string)
    requires Consistent(ds, observe) && forall f | f in found :: f.tokenized == (f.category !in observe)
    ensures Reported(CountAll(ds, found), c) == Reported(ds, c) + SealedAmong(found, c)
    decreases |found|
  {
    hide Consistent, CountHit;
    if found != [] {
      assert found[0] in found;
      CountHitReports(ds, found[0], observe, c);
      CountAllReports(CountHit(ds, found[0]), found[1..], observe, c);
    }
  }

  lemma {:induction false} FoundFlags(size: nat, origin: nat, spans: seq<ExternalSpan>, observe: set<string>, last: nat)
    requires forall s | s in spans :: s.start <= s.end
    ensures forall f | f in FoundInSegment(size, origin, spans, observe, last) :: f.tokenized == (f.category !in observe)
    decreases |spans|
  {
    if spans != [] {
      var s := spans[0];
      if s.start >= origin && s.end <= origin + size && s.start - origin >= last {
        FoundFlags(size, origin, spans[1..], observe, if s.category in observe then last else s.end - origin);
      } else {
        FoundFlags(size, origin, spans[1..], observe, last);
      }
    }
  }

  lemma {:induction false} FlagsEverywhere(segments: seq<Segment>, spans: seq<ExternalSpan>, observe: set<string>)
    requires forall s | s in spans :: s.start <= s.end
    ensures forall f | f in FoundIn(segments, spans, observe) :: f.tokenized == (f.category !in observe)
  {
    hide FoundInSegment;
    if segments != [] {
      FlagsEverywhere(segments[1..], spans, observe);
      if segments[0].Plain? {
        FoundFlags(|segments[0].text|, segments[0].origin, spans, observe, 0);
      }
    }
  }

  /** The report is honest: of every category, the scan reports as many sealed values as it put tokens
      into the text, by rules and by detector spans together. */
  lemma {:induction false} ReportIsWhatWasSealed(k: Sealer, rules: seq<Rule>, text: string, external: seq<ExternalSpan>, c: string)
    requires Outcome(k, rules, text, external).Ok?
    ensures var out := Outcome(k, rules, text, external).value;
            && ScanSegments(k, rules, text, external).Ok?
            && out.text == Shown(ScanSegments(k, rules, text, external).value)
            && SealedOf(ScanSegments(k, rules, text, external).value, c) == Reported(out.detections, c) + Reported(out.external, c)
  {
    hide ApplyRules, ApplyExternal, Normalize, ObserveOnly, RuleDetections, FoundIn, CountAll, SealedOf, Shown, SegmentsFrom;
    var masked := MaskedSegments(text);
    var left := ApplyRules(k, rules, masked).value;
    var spans, observe := Normalize(text, external), ObserveOnly(rules);
    NormalizeIsOrdered(text, external);
    MaskedSealsNothing(text, 0, c);
    RulesCount(k, rules, masked, c);
    ExternalCounts(k, left, spans, observe, c);
    FlagsEverywhere(left, spans, observe);
    CountAllReports([], FoundIn(left, spans, observe), observe, c);
  }

  lemma {:induction false} ConsSealsNothing(s: Segment, rest: seq<Segment>, c: string)
    requires !s.Sealed? && SealedOf(rest, c) == 0
    ensures SealedOf([s] + rest, c) == 0
  {
    assert ([s] + rest)[1..] == rest;
  }

  lemma {:induction false} MaskedSealsNothing(text: string, from: nat, c: string)
    requires from <= |text|
    ensures SealedOf(SegmentsFrom(text, from), c) == 0
    decreases |text| - from
  {
    hide NextSpan, SealedOf, TokenSpan.SpanLen;
    if from == |text| {
      SealedInNothing(c);
    } else {
      var start := NextSpan(text, from);
      if from < start {
        MaskedSealsNothing(text, start, c);
        ConsSealsNothing(Plain(text[from..start], from), SegmentsFrom(text, start), c);
      } else {
        var next := from + TokenSpan.SpanLen(text[from..]);
        MaskedSealsNothing(text, next, c);
        ConsSealsNothing(Existing(text[from..next], from), SegmentsFrom(text, next), c);
      }
    }
  }
}
