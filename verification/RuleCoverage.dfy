/** Which matches of a rule are sealed: all of them, but those that another match takes the place of. */
module RuleCoverage {
  import opened Text
  import opened Sealing
  import opened Segments
  import opened Ordering
  import opened Scan
  import opened ScanProofs

  /** Some pattern of the rule reports the range, and the validator, if there is one, accepts what it holds. */
  predicate IsMatch(rule: Rule, text: string, start: nat, end: nat) {
    && start <= end <= |text|
    && (exists i :: 0 <= i < |rule.patterns| && (start, end) in rule.patterns[i](text))
    && (rule.validator.Some? ==> rule.validator.value(text[start..end]))
  }

  /** A hit that stands in for a match: it begins no later and covers the match's beginning, and it is at
      least as long where both begin together. */
  predicate StandsFor(h: Hit, start: nat, end: nat) {
    h.start <= start < h.end && (h.start == start ==> end <= h.end)
  }

  // ---------- candidates ----------

  lemma {:induction false} ValidMatchesAre(rule: Rule, text: string, ranges: seq<(nat, nat)>, h: Hit)
    ensures h in ValidMatches(rule, text, ranges) <==>
              && (h.start, h.end) in ranges && h.start <= h.end <= |text| && h.category == rule.category
              && (rule.validator.Some? ==> rule.validator.value(text[h.start..h.end]))
  {
    if ranges != [] {
      hide Rule.Accepts;
      ValidMatchesAre(rule, text, ranges[1..], h);
      AcceptsIs(rule, text, h);
      var (start, end) := ranges[0];
      assert ranges == [(start, end)] + ranges[1..];
      assert (h.start, h.end) in ranges <==> (h.start == start && h.end == end) || (h.start, h.end) in ranges[1..];
      assert h == Hit(start, end, rule.category) <==> h.start == start && h.end == end && h.category == rule.category;
    }
  }

  lemma {:induction false} AcceptsIs(rule: Rule, text: string, h: Hit)
    ensures h.start <= h.end <= |text| ==>
              (rule.Accepts(text[h.start..h.end]) <==> (rule.validator.Some? ==> rule.validator.value(text[h.start..h.end])))
  {
  }

  lemma {:induction false} CandidatesAre(rule: Rule, text: string, patterns: seq<string -> seq<(nat, nat)>>, h: Hit)
    ensures h in Candidates(rule, text, patterns) <==>
              exists i :: 0 <= i < |patterns| && h in ValidMatches(rule, text, patterns[i](text))
    decreases |patterns|
  {
    hide ValidMatches;
    if |patterns| != 0 {
      var rest := patterns[1..];
      CandidatesAre(rule, text, rest, h);
      if i :| 0 <= i < |patterns| && h in ValidMatches(rule, text, patterns[i](text)) {
        if i > 0 {
          assert rest[i - 1] == patterns[i];
        }
      }
      if i :| 0 <= i < |rest| && h in ValidMatches(rule, text, rest[i](text)) {
        assert patterns[i + 1] == rest[i];
      }
    }
  }

  /** The candidates of a rule are exactly its matches. */
  lemma {:induction false} CandidatesAreMatches(rule: Rule, text: string, h: Hit)
    ensures h in Candidates(rule, text, rule.patterns) <==> h.category == rule.category && IsMatch(rule, text, h.start, h.end)
  {
    hide Candidates, ValidMatches;
    CandidatesAre(rule, text, rule.patterns, h);
    forall i | 0 <= i < |rule.patterns|
      ensures h in ValidMatches(rule, text, rule.patterns[i](text)) <==>
                && (h.start, h.end) in rule.patterns[i](text) && h.start <= h.end <= |text| && h.category == rule.category
                && (rule.validator.Some? ==> rule.validator.value(text[h.start..h.end]))
    {
      ValidMatchesAre(rule, text, rule.patterns[i](text), h);
    }
  }

  // ---------- the choice ----------

  lemma {:induction false} EarlierIsLinear()
    ensures Linear(Earlier)
  {
  }

  lemma {:induction false} GreedyMisses(hits: seq<Hit>, last: nat, h: Hit) returns (kept: Option<Hit>)
    requires Sorted(hits, Earlier) && h in hits && forall x | x in hits :: x.start <= x.end
    ensures h in Greedy(hits, last) || h.start < last || kept.Some?
    ensures kept.Some? ==> kept.value in Greedy(hits, last) && StandsFor(kept.value, h.start, h.end)
    decreases |hits|
  {
    var first, rest := hits[0], hits[1..];
    assert first in hits && forall x | x in rest :: x in hits;
    assert hits == [first] + rest;
    kept := None;
    if first.start < last {
      if h != first {
        kept := GreedyMisses(rest, last, h);
      }
    } else if h != first {
      kept := GreedyMisses(rest, first.end, h);
      if h !in Greedy(rest, first.end) && kept.None? {
        var j :| 0 <= j < |hits| && hits[j] == h;
        assert Earlier(hits[0], hits[j]);
        kept := Some(first);
      }
    }
  }

  /** Every hit of a rule is one of its matches; and every match is a hit, or a hit stands for it. */
  lemma {:induction false} RuleHitsExactly(rule: Rule, text: string)
    ensures forall h | h in RuleHits(rule, text) :: h.category == rule.category && IsMatch(rule, text, h.start, h.end)
    ensures forall start, end | IsMatch(rule, text, start, end) ::
              || Hit(start, end, rule.category) in RuleHits(rule, text)
              || exists h :: h in RuleHits(rule, text) && StandsFor(h, start, end)
  {
    hide Candidates, Greedy, Sort, IsMatch, StandsFor, InOrder;
    var c := Candidates(rule, text, rule.patterns);
    var sorted := Sort(c, Earlier);
    CandidatesBounded(rule, text, rule.patterns);
    EarlierIsLinear();
    SortSorts(c, Earlier);
    forall h ensures h in sorted <==> h.category == rule.category && IsMatch(rule, text, h.start, h.end) {
      SortMembers(c, Earlier, h);
      CandidatesAreMatches(rule, text, h);
    }
    forall h | h in sorted ensures h.start <= h.end <= |text| {
      SortMembers(c, Earlier, h);
    }
    GreedyInOrder(sorted, 0, |text|);
    forall start, end | IsMatch(rule, text, start, end)
      ensures Hit(start, end, rule.category) in RuleHits(rule, text) || exists h :: h in RuleHits(rule, text) && StandsFor(h, start, end)
    {
      var kept := GreedyMisses(sorted, 0, Hit(start, end, rule.category));
    }
  }

  // ---------- what a rule seals ----------

  /** A sealed value standing for a match of a plain segment: exactly it, or one that begins no later, is at
      least as long where both begin together, and covers the match's beginning. */
  predicate Covers(x: Segment, rule: Rule, p: Segment, start: nat, end: nat)
    requires p.Plain?
  {
    && x.Sealed? && x.category == rule.category
    && p.origin <= x.origin && x.origin + |x.value| <= p.origin + |p.text|
    && ((x.origin == p.origin + start && |x.value| == end - start)
        || (x.origin <= p.origin + start < x.origin + |x.value| && (x.origin == p.origin + start ==> end - start <= |x.value|)))
  }

  lemma {:induction false} HitIsSealed(k: Sealer, rule: Rule, p: Segment, h: Hit) returns (x: Segment)
    requires p.Plain? && rule.tokenize && TokenizeSegment(k, rule, p.text, p.origin).Ok?
    requires h in RuleHits(rule, p.text)
    ensures h.start <= h.end <= |p.text| && x in TokenizeSegment(k, rule, p.text, p.origin).value
    ensures x.Sealed? && x.category == h.category && x.origin == p.origin + h.start && x.value == p.text[h.start..h.end]
  {
    hide RuleHits, Carve, BuildToken, InOrder;
    var hits := RuleHits(rule, p.text);
    RuleHitsInOrder(rule, p.text);
    HitsAreInside(hits, 0, |p.text|);
    CarvedHitsAreBuilt(k, p.text, p.origin, hits, 0, h);
    x := SealOfHit(k, p.text, p.origin, h).value;
    CarveSeals(k, p.text, p.origin, hits, 0, x);
  }

  lemma {:induction false} HitsAreInside(hits: seq<Hit>, last: nat, size: nat)
    requires InOrder(hits, last, size)
    ensures forall h | h in hits :: last <= h.start <= h.end <= size
    ensures last <= size
    decreases |hits|
  {
    if hits != [] {
      HitsAreInside(hits[1..], hits[0].end, size);
    }
  }

  lemma {:induction false} CarvedHitsAreBuilt(k: Sealer, text: string, origin: nat, hits: seq<Hit>, last: nat, h: Hit)
    requires InOrder(hits, last, |text|) && Carve(k, text, origin, hits, last).Ok? && h in hits
    ensures h.start <= h.end <= |text| && SealOfHit(k, text, origin, h).Some?
    decreases |hits|
  {
    hide BuildToken, Gap;
    HitsAreInside(hits, last, |text|);
    if h != hits[0] {
      CarvedHitsAreBuilt(k, text, origin, hits[1..], hits[0].end, h);
    }
  }

  /** A sealing rule covers every match of every plain segment it is given. */
  lemma {:induction false} MatchIsCovered(k: Sealer, rule: Rule, segments: seq<Segment>, p: Segment, start: nat, end: nat) returns (x: Segment)
    requires rule.tokenize && ApplyRule(k, rule, segments).Ok? && p in segments && p.Plain? && IsMatch(rule, p.text, start, end)
    ensures x in ApplyRule(k, rule, segments).value && Covers(x, rule, p, start, end)
  {
    hide RuleHits, TokenizeSegment;
    RuleHitsExactly(rule, p.text);
    SegmentIsTokenized(k, rule, segments, p);
    var exact := Hit(start, end, rule.category);
    if exact in RuleHits(rule, p.text) {
      x := HitIsSealed(k, rule, p, exact);
    } else {
      var h :| h in RuleHits(rule, p.text) && StandsFor(h, start, end);
      x := HitIsSealed(k, rule, p, h);
    }
  }

  lemma {:induction false} SegmentIsTokenized(k: Sealer, rule: Rule, segments: seq<Segment>, p: Segment)
    requires ApplyRule(k, rule, segments).Ok? && p in segments && p.Plain?
    ensures TokenizeSegment(k, rule, p.text, p.origin).Ok?
    ensures forall x | x in TokenizeSegment(k, rule, p.text, p.origin).value :: x in ApplyRule(k, rule, segments).value
    decreases |segments|
  {
    hide TokenizeSegment;
    if p != segments[0] {
      SegmentIsTokenized(k, rule, segments[1..], p);
    }
  }

  // ---------- what later passes keep ----------

  lemma {:induction false} RuleKeepsSealed(k: Sealer, rule: Rule, segments: seq<Segment>, x: Segment)
    requires ApplyRule(k, rule, segments).Ok? && x in segments && !x.Plain?
    ensures x in ApplyRule(k, rule, segments).value
    decreases |segments|
  {
    hide TokenizeSegment;
    if x != segments[0] {
      RuleKeepsSealed(k, rule, segments[1..], x);
    }
  }

  lemma {:induction false} RulesKeepSealed(k: Sealer, rules: seq<Rule>, segments: seq<Segment>, x: Segment)
    requires ApplyRules(k, rules, segments).Ok? && x in segments && !x.Plain?
    ensures x in ApplyRules(k, rules, segments).value
    decreases |rules|
  {
    hide ApplyRule;
    if |rules| != 0 {
      RuleKeepsSealed(k, rules[0], segments, x);
      RulesKeepSealed(k, rules[1..], ApplyRule(k, rules[0], segments).value, x);
    }
  }

  lemma {:induction false} ExternalKeepsSealed(k: Sealer, segments: seq<Segment>, spans: seq<ExternalSpan>, observe: set<string>, x: Segment)
    requires (forall s | s in spans :: s.start <= s.end) && ApplyExternal(k, segments, spans, observe).Ok? && x in segments && !x.Plain?
    ensures x in ApplyExternal(k, segments, spans, observe).value
    decreases |segments|
  {
    hide Carve, ExternalHits;
    if x != segments[0] {
      ExternalKeepsSealed(k, segments[1..], spans, observe, x);
    }
  }

  /** The rules up to the i-th, then the i-th, then the others. */
  lemma {:induction false} RulesSplit(k: Sealer, rules: seq<Rule>, segments: seq<Segment>, i: nat)
    requires i < |rules| && ApplyRules(k, rules, segments).Ok?
    ensures var before := ApplyRules(k, rules[..i], segments);
            && before.Ok? && ApplyRule(k, rules[i], before.value).Ok?
            && ApplyRules(k, rules, segments) == ApplyRules(k, rules[i + 1..], ApplyRule(k, rules[i], before.value).value)
    decreases i
  {
    hide ApplyRule;
    if i > 0 {
      var next := ApplyRule(k, rules[0], segments).value;
      RulesSplit(k, rules[1..], next, i - 1);
      assert rules[..i][0] == rules[0] && rules[..i][1..] == rules[1..][..i - 1];
      assert rules[1..][i..] == rules[i + 1..];
    } else {
      assert |rules[..0]| == 0;
    }
  }

  /** In a whole scan: what a sealing rule matches in any plain segment that the rules before it have left is
      sealed in the result, itself or by a match that takes its place. */
  lemma {:induction false} EveryMatchIsCovered(
    k: Sealer, rules: seq<Rule>, text: string, external: seq<ExternalSpan>, i: nat, p: Segment, start: nat, end: nat)
    returns (x: Segment)
    requires ScanSegments(k, rules, text, external).Ok? && i < |rules| && rules[i].tokenize
    requires ApplyRules(k, rules[..i], MaskedSegments(text)).Ok? && p in ApplyRules(k, rules[..i], MaskedSegments(text)).value
    requires p.Plain? && IsMatch(rules[i], p.text, start, end)
    ensures x in ScanSegments(k, rules, text, external).value && Covers(x, rules[i], p, start, end)
  {
    hide ApplyRules, ApplyRule, ApplyExternal, Normalize, ObserveOnly, MaskedSegments, IsMatch, Covers;
    var masked := MaskedSegments(text);
    RulesSplit(k, rules, masked, i);
    var before := ApplyRules(k, rules[..i], masked).value;
    var after := ApplyRule(k, rules[i], before).value;
    x := MatchIsCovered(k, rules[i], before, p, start, end);
    CoverIsSealed(x, rules[i], p, start, end);
    RulesKeepSealed(k, rules[i + 1..], after, x);
    NormalizeIsOrdered(text, external);
    ExternalKeepsSealed(k, ApplyRules(k, rules, masked).value, Normalize(text, external), ObserveOnly(rules), x);
  }

  lemma {:induction false} CoverIsSealed(x: Segment, rule: Rule, p: Segment, start: nat, end: nat)
    requires p.Plain? && Covers(x, rule, p, start, end)
    ensures x.Sealed?
  {
  }

  // ---------- nothing else is sealed ----------

  /** A value a rule seals is one of its matches in a plain segment it was given. */
  lemma {:induction false} SealedIsMatch(k: Sealer, rule: Rule, segments: seq<Segment>, x: Segment)
    requires ApplyRule(k, rule, segments).Ok? && x in ApplyRule(k, rule, segments).value && x.Sealed? && x !in segments
    ensures rule.tokenize && x.category == rule.category
    ensures exists p :: p in segments && p.Plain? && p.origin <= x.origin && x.origin + |x.value| <= p.origin + |p.text|
                        && IsMatch(rule, p.text, x.origin - p.origin, x.origin - p.origin + |x.value|)
                        && x.value == p.text[x.origin - p.origin..x.origin - p.origin + |x.value|]
    decreases |segments|
  {
    hide TokenizeSegment, IsMatch;
    var s, rest := segments[0], segments[1..];
    assert segments == [s] + rest;
    var tail := ApplyRule(k, rule, rest).value;
    if x in tail {
      SealedIsMatch(k, rule, rest, x);
    } else {
      assert s.Plain? && x in TokenizeSegment(k, rule, s.text, s.origin).value;
      SealedInSegment(k, rule, s, x);
    }
  }

  lemma {:induction false} SealedInSegment(k: Sealer, rule: Rule, p: Segment, x: Segment)
    requires p.Plain? && TokenizeSegment(k, rule, p.text, p.origin).Ok? && x in TokenizeSegment(k, rule, p.text, p.origin).value && x.Sealed?
    ensures rule.tokenize && x.category == rule.category
    ensures p.origin <= x.origin && x.origin + |x.value| <= p.origin + |p.text|
    ensures IsMatch(rule, p.text, x.origin - p.origin, x.origin - p.origin + |x.value|)
    ensures x.value == p.text[x.origin - p.origin..x.origin - p.origin + |x.value|]
  {
    hide RuleHits, Carve, BuildToken, InOrder, IsMatch;
    var hits := RuleHits(rule, p.text);
    RuleHitsInOrder(rule, p.text);
    RuleHitsExactly(rule, p.text);
    CarveSeals(k, p.text, p.origin, hits, 0, x);
    var h :| h in hits && h.start <= h.end <= |p.text| && SealOfHit(k, p.text, p.origin, h) == Some(x);
  }
}
