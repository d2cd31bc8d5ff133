/** The tokenization engine: existing spans are masked, every rule carves its hits out of the plain
    segments, and detector spans are sealed in what the rules left. */
module Scan {
  import opened Text
  import opened Sealing
  import opened Segments
  import opened Ordering

  /** A rule: each pattern reports its matches in a segment as ranges; ranges that do not lie in the
      segment cannot occur and are ignored. */
  datatype Rule = Rule(
    category: string,
    patterns: seq<string -> seq<(nat, nat)>>,
    validator: Option<string -> bool>,
    tokenize: bool)
  {
    predicate Accepts(value: string) {
      validator.Some? ==> validator.value(value)
    }
  }

  datatype ExternalSpan = ExternalSpan(start: nat, end: nat, category: string)

  /** A range of a segment that is to be sealed. */
  datatype Hit = Hit(start: nat, end: nat, category: string)

  // ---------- the hits of a rule ----------

  /** Earliest first, longest at equal start. */
  predicate Earlier(a: Hit, b: Hit) {
    a.start < b.start || (a.start == b.start && a.end >= b.end)
  }

  function ValidMatches(rule: Rule, text: string, ranges: seq<(nat, nat)>): seq<Hit> {
    if ranges == [] then []
    else
      var (start, end) := ranges[0];
      (if start <= end <= |text| && rule.Accepts(text[start..end]) then [Hit(start, end, rule.category)] else [])
      + ValidMatches(rule, text, ranges[1..])
  }

  function Candidates(rule: Rule, text: string, patterns: seq<string -> seq<(nat, nat)>>): seq<Hit> {
    if |patterns| == 0 then []
    else ValidMatches(rule, text, patterns[0](text)) + Candidates(rule, text, patterns[1..])
  }

  /** Drops every hit that begins before the last kept one ends. */
  function Greedy(hits: seq<Hit>, last: nat): seq<Hit> {
    if hits == [] then []
    else if hits[0].start < last then Greedy(hits[1..], last)
    else [hits[0]] + Greedy(hits[1..], hits[0].end)
  }

  function RuleHits(rule: Rule, text: string): seq<Hit> {
    Greedy(Sort(Candidates(rule, text, rule.patterns), Earlier), 0)
  }

  /** Hits one after the other, inside a text, from a position on. */
  predicate InOrder(hits: seq<Hit>, last: nat, size: nat) {
    if hits == [] then last <= size
    else last <= hits[0].start <= hits[0].end <= size && InOrder(hits[1..], hits[0].end, size)
  }

  predicate Bounded(hits: seq<Hit>, size: nat) {
    forall h | h in hits :: h.start <= h.end <= size
  }

  lemma {:induction false} ValidMatchesBounded(rule: Rule, text: string, ranges: seq<(nat, nat)>)
    ensures Bounded(ValidMatches(rule, text, ranges), |text|)
    ensures forall h | h in ValidMatches(rule, text, ranges) :: h.category == rule.category
  {
    if ranges != [] {
      ValidMatchesBounded(rule, text, ranges[1..]);
    }
  }

  lemma {:induction false} CandidatesBounded(rule: Rule, text: string, patterns: seq<string -> seq<(nat, nat)>>)
    ensures Bounded(Candidates(rule, text, patterns), |text|)
    ensures forall h | h in Candidates(rule, text, patterns) :: h.category == rule.category
  {
    if |patterns| != 0 {
      ValidMatchesBounded(rule, text, patterns[0](text));
      CandidatesBounded(rule, text, patterns[1..]);
    }
  }

  lemma {:induction false} GreedyInOrder(hits: seq<Hit>, last: nat, size: nat)
    requires Bounded(hits, size) && last <= size
    ensures InOrder(Greedy(hits, last), last, size)
    ensures forall h | h in Greedy(hits, last) :: h in hits
  {
    if hits != [] {
      assert hits[0] in hits;
      assert forall h | h in hits[1..] :: h in hits;
      if hits[0].start < last {
        GreedyInOrder(hits[1..], last, size);
      } else {
        GreedyInOrder(hits[1..], hits[0].end, size);
      }
    }
  }

  lemma {:induction false} RuleHitsInOrder(rule: Rule, text: string)
    ensures InOrder(RuleHits(rule, text), 0, |text|)
    ensures forall h | h in RuleHits(rule, text) :: h.category == rule.category
  {
    hide Sort, Greedy, Candidates;
    var c := Candidates(rule, text, rule.patterns);
    CandidatesBounded(rule, text, rule.patterns);
    forall h | h in Sort(c, Earlier) ensures h in c {
      SortMembers(c, Earlier, h);
    }
    GreedyInOrder(Sort(c, Earlier), 0, |text|);
  }

  // ---------- carving ----------

  /** Cuts hits out of a plain run and seals them. */
  function Carve(k: Sealer, text: string, origin: nat, hits: seq<Hit>, last: nat): Result<seq<Segment>, ScanError>
    requires InOrder(hits, last, |text|)
    decreases |hits|
  {
    if hits == [] then Ok(Gap(text, origin, last, |text|))
    else
      var h := hits[0];
      var value := text[h.start..h.end];
      match BuildToken(k, h.category, value)
      case Err(e) => Err(e)
      case Ok(token) =>
        match Carve(k, text, origin, hits[1..], h.end)
        case Err(e) => Err(e)
        case Ok(rest) =>
          Ok(Gap(text, origin, last, h.start) + ([Sealed(token, h.category, value, origin + h.start)] + rest))
  }

  /** The plain run left between two cuts, if any. */
  function Gap(text: string, origin: nat, from: nat, to: nat): seq<Segment>
    requires from <= to <= |text|
  {
    if to > from then [Plain(text[from..to], origin + from)] else []
  }

  /** What one pass makes of one plain segment. */
  function TokenizeSegment(k: Sealer, rule: Rule, text: string, origin: nat): Result<seq<Segment>, ScanError> {
    var hits := RuleHits(rule, text);
    RuleHitsInOrder(rule, text);
    if hits == [] || !rule.tokenize then Ok([Plain(text, origin)]) else Carve(k, text, origin, hits, 0)
  }

  function Append(a: Result<seq<Segment>, ScanError>, b: Result<seq<Segment>, ScanError>): Result<seq<Segment>, ScanError> {
    match a
    case Err(e) => Err(e)
    case Ok(x) => match b case Err(e) => Err(e) case Ok(y) => Ok(x + y)
  }

  function ApplyRule(k: Sealer, rule: Rule, segments: seq<Segment>): Result<seq<Segment>, ScanError> {
    if segments == [] then Ok([])
    else
      Append(
        match segments[0]
        case Plain(text, origin) => TokenizeSegment(k, rule, text, origin)
        case _ => Ok([segments[0]]),
        ApplyRule(k, rule, segments[1..]))
  }

  function ApplyRules(k: Sealer, rules: seq<Rule>, segments: seq<Segment>): Result<seq<Segment>, ScanError> {
    if |rules| == 0 then Ok(segments)
    else
      match ApplyRule(k, rules[0], segments)
      case Err(e) => Err(e)
      case Ok(next) => ApplyRules(k, rules[1..], next)
  }

  // ---------- detector spans ----------

  predicate EarlierSpan(a: ExternalSpan, b: ExternalSpan) {
    a.start < b.start || (a.start == b.start && a.end >= b.end)
  }

  predicate WellFormed(s: ExternalSpan, size: nat) {
    s.start < s.end <= size && IsValidRuleId(s.category)
  }

  function WellFormedOnes(spans: seq<ExternalSpan>, size: nat): seq<ExternalSpan> {
    if spans == [] then []
    else (if WellFormed(spans[0], size) then [spans[0]] else []) + WellFormedOnes(spans[1..], size)
  }

  function NonOverlapping(spans: seq<ExternalSpan>, last: nat): seq<ExternalSpan> {
    if spans == [] then []
    else if spans[0].start < last then NonOverlapping(spans[1..], last)
    else [spans[0]] + NonOverlapping(spans[1..], spans[0].end)
  }

  function Normalize(text: string, spans: seq<ExternalSpan>): seq<ExternalSpan> {
    NonOverlapping(Sort(WellFormedOnes(spans, |text|), EarlierSpan), 0)
  }

  function ObserveOnly(rules: seq<Rule>): set<string> {
    if |rules| == 0 then {}
    else (if rules[0].tokenize then {} else {rules[0].category}) + ObserveOnly(rules[1..])
  }

  /** The spans that are sealed in one plain segment, as ranges of it. */
  function ExternalHits(size: nat, origin: nat, spans: seq<ExternalSpan>, observe: set<string>, last: nat): (hits: seq<Hit>)
    requires last <= size
    requires forall s | s in spans :: s.start <= s.end
    ensures InOrder(hits, last, size)
  {
    if spans == [] then []
    else
      var s := spans[0];
      if s.start >= origin && s.end <= origin + size && s.start - origin >= last && s.category !in observe then
        [Hit(s.start - origin, s.end - origin, s.category)]
        + ExternalHits(size, origin, spans[1..], observe, s.end - origin)
      else ExternalHits(size, origin, spans[1..], observe, last)
  }

  function ApplyExternal(k: Sealer, segments: seq<Segment>, spans: seq<ExternalSpan>, observe: set<string>)
    : Result<seq<Segment>, ScanError>
    requires forall s | s in spans :: s.start <= s.end
  {
    if segments == [] then Ok([])
    else
      Append(
        match segments[0]
        case Plain(text, origin) => Carve(k, text, origin, ExternalHits(|text|, origin, spans, observe, 0), 0)
        case _ => Ok([segments[0]]),
        ApplyExternal(k, segments[1..], spans, observe))
  }

  // ---------- the scan ----------

  function ScanSegments(k: Sealer, rules: seq<Rule>, text: string, external: seq<ExternalSpan>): Result<seq<Segment>, ScanError> {
    match ApplyRules(k, rules, MaskedSegments(text))
    case Err(e) => Err(e)
    case Ok(segments) =>
      NormalizeIsOrdered(text, external);
      ApplyExternal(k, segments, Normalize(text, external), ObserveOnly(rules))
  }

  function ScanText(k: Sealer, rules: seq<Rule>, text: string, external: seq<ExternalSpan>): Result<string, ScanError> {
    match ScanSegments(k, rules, text, external)
    case Err(e) => Err(e)
    case Ok(segments) => Ok(Shown(segments))
  }

  // ---------- normalization ----------

  lemma {:induction false} WellFormedOnesAre(spans: seq<ExternalSpan>, size: nat, s: ExternalSpan)
    ensures s in WellFormedOnes(spans, size) <==> s in spans && WellFormed(s, size)
  {
    if spans != [] {
      WellFormedOnesAre(spans[1..], size, s);
      assert s in spans <==> s == spans[0] || s in spans[1..];
    }
  }

  predicate Apart(spans: seq<ExternalSpan>, last: nat) {
    && (forall i | 0 <= i < |spans| :: last <= spans[i].start < spans[i].end)
    && (forall i, j | 0 <= i < j < |spans| :: spans[i].end <= spans[j].start)
  }

  lemma {:induction false} NonOverlappingApart(spans: seq<ExternalSpan>, last: nat)
    requires forall s | s in spans :: s.start < s.end
    ensures Apart(NonOverlapping(spans, last), last)
    ensures forall s | s in NonOverlapping(spans, last) :: s in spans
  {
    if spans != [] {
      assert forall s | s in spans[1..] :: s in spans;
      assert spans[0] in spans;
      if spans[0].start < last {
        NonOverlappingApart(spans[1..], last);
      } else {
        NonOverlappingApart(spans[1..], spans[0].end);
      }
    }
  }

  /** The kept spans are well-formed spans of the input, in order and disjoint. */
  lemma {:induction false} NormalizeIsOrdered(text: string, spans: seq<ExternalSpan>)
    ensures Apart(Normalize(text, spans), 0)
    ensures forall s | s in Normalize(text, spans) :: s in spans && WellFormed(s, |text|)
  {
    hide Sort, NonOverlapping, WellFormedOnes;
    var valid := WellFormedOnes(spans, |text|);
    forall s | s in Sort(valid, EarlierSpan) ensures s in spans && WellFormed(s, |text|) {
      SortMembers(valid, EarlierSpan, s);
      WellFormedOnesAre(spans, |text|, s);
    }
    NonOverlappingApart(Sort(valid, EarlierSpan), 0);
  }

  /** A span is dropped only for one that is kept, starts no later and overlaps it. */
  lemma {:induction false} DroppedForAKeptOne(spans: seq<ExternalSpan>, last: nat, s: ExternalSpan) returns (kept: Option<ExternalSpan>)
    requires Sorted(spans, EarlierSpan) && s in spans && forall x | x in spans :: x.start < x.end
    ensures kept.None? ==> s.start < last
    ensures kept.Some? ==>
              kept.value in NonOverlapping(spans, last) && EarlierSpan(kept.value, s) && s.start < kept.value.end
  {
    assert forall x | x in spans[1..] :: x in spans;
    assert spans[0] in spans;
    if spans[0].start < last {
      if s in spans[1..] {
        kept := DroppedForAKeptOne(spans[1..], last, s);
      } else {
        kept := None;
      }
    } else if s == spans[0] {
      kept := Some(s);
    } else {
      kept := DroppedForAKeptOne(spans[1..], spans[0].end, s);
      if kept.None? {
        kept := Some(spans[0]);
        var j :| 0 <= j < |spans| && spans[j] == s;
        assert EarlierSpan(spans[0], spans[j]);
      }
    }
  }

  lemma {:induction false} EarlierSpanIsLinear()
    ensures Linear(EarlierSpan)
  {
  }

  /** A capital letter, then up to 63 capital letters, digits and underscores. */
  predicate NamesARule(id: string) {
    1 <= |id| <= 64 && 'A' <= id[0] <= 'Z' && forall c | c in id :: 'A' <= c <= 'Z' || '0' <= c <= '9' || c == '_'
  }

  lemma {:induction false} ValidNames(id: string)
    ensures IsValidRuleId(id) <==> NamesARule(id)
  {
    assert forall i | 0 <= i < |id| :: id[i] in id;
  }

  /** What is kept was given, lies in the text and is not empty, and its category could name a rule. */
  lemma {:induction false} KeptWereGiven(text: string, spans: seq<ExternalSpan>, s: ExternalSpan)
    requires s in Normalize(text, spans)
    ensures s in spans && s.start < s.end <= |text| && NamesARule(s.category)
  {
    hide Normalize, IsValidRuleId, NamesARule;
    NormalizeIsOrdered(text, spans);
    ValidNames(s.category);
  }

  /** Every well-formed span of the input is kept, or loses to a kept one that reaches into it and begins
      before it, or begins with it and is at least as long. */
  lemma {:induction false} NormalizeIsMaximal(text: string, spans: seq<ExternalSpan>, s: ExternalSpan)
    requires s in spans && s.start < s.end <= |text| && NamesARule(s.category)
    ensures exists kept :: kept in Normalize(text, spans) && s.start < kept.end
                           && (kept.start < s.start || (kept.start == s.start && s.end <= kept.end))
  {
    hide Sort, NonOverlapping, WellFormedOnes, IsValidRuleId, NamesARule;
    ValidNames(s.category);
    var valid := WellFormedOnes(spans, |text|);
    var sorted := Sort(valid, EarlierSpan);
    EarlierSpanIsLinear();
    SortSorts(valid, EarlierSpan);
    WellFormedOnesAre(spans, |text|, s);
    SortMembers(valid, EarlierSpan, s);
    forall x | x in sorted ensures x.start < x.end {
      SortMembers(valid, EarlierSpan, x);
      WellFormedOnesAre(spans, |text|, x);
    }
    var kept := DroppedForAKeptOne(sorted, 0, s);
  }
}
