/** What the reports of a scan say, entry by entry. */
module DetectionReport {
  import opened Sealing
  import opened Segments
  import opened Scan
  import opened Detections

  // ---------- rules ----------

  /** A rule is counted by its hits in every plain segment, whether it seals them or not. */
  lemma {:induction false} HitsAreCounted(rule: Rule, s: Segment, rest: seq<Segment>)
    ensures RuleCount(rule, [s] + rest) == (if s.Plain? then |RuleHits(rule, s.text)| else 0) + RuleCount(rule, rest)
    ensures RuleCount(rule, []) == 0
  {
    hide RuleHits;
    assert ([s] + rest)[1..] == rest;
  }

  /** Each rule that hits has its entry, between those of the rules before it and after it. */
  lemma {:induction false} RuleIsReported(k: Sealer, rules: seq<Rule>, segments: seq<Segment>, i: nat)
    requires i < |rules| && ApplyRules(k, rules, segments).Ok?
    ensures ApplyRules(k, rules[..i], segments).Ok?
    ensures var before := ApplyRules(k, rules[..i], segments).value;
            var n := RuleCount(rules[i], before);
            && ApplyRule(k, rules[i], before).Ok?
            && RuleDetections(k, rules, segments)
               == RuleDetections(k, rules[..i], segments)
                  + ((if n > 0 then [Detection(rules[i].category, rules[i].tokenize, n)] else [])
                     + RuleDetections(k, rules[i + 1..], ApplyRule(k, rules[i], before).value))
    decreases i
  {
    hide ApplyRule, RuleCount;
    if i > 0 {
      var next := ApplyRule(k, rules[0], segments).value;
      RuleIsReported(k, rules[1..], next, i - 1);
      assert rules[..i][0] == rules[0] && rules[..i][1..] == rules[1..][..i - 1];
      assert rules[1..][i..] == rules[i + 1..];
    } else {
      assert |rules[..0]| == 0;
    }
  }

  // ---------- detector spans ----------

  /** How many spans of a category lie between two positions. */
  function CountInside(spans: seq<ExternalSpan>, from: nat, to: nat, c: string): nat {
    if spans == [] then 0
    else (if spans[0].category == c && from <= spans[0].start && spans[0].end <= to then 1 else 0) + CountInside(spans[1..], from, to, c)
  }

  /** How many lie in the plain segments. */
  function Seen(segments: seq<Segment>, spans: seq<ExternalSpan>, c: string): nat {
    if segments == [] then 0
    else
      (match segments[0]
       case Plain(text, origin) => CountInside(spans, origin, origin + |text|, c)
       case _ => 0)
      + Seen(segments[1..], spans, c)
  }

  function OfCategory(found: seq<Found>, c: string): nat {
    if found == [] then 0 else (if found[0].category == c then 1 else 0) + OfCategory(found[1..], c)
  }

  lemma {:induction false} OfCategoryConcat(a: seq<Found>, b: seq<Found>, c: string)
    ensures OfCategory(a + b, c) == OfCategory(a, c) + OfCategory(b, c)
    decreases |a|
  {
    if a == [] {
      assert a + b == b;
    } else {
      assert (a + b)[0] == a[0] && (a + b)[1..] == a[1..] + b;
      OfCategoryConcat(a[1..], b, c);
    }
  }

  lemma {:induction false} OfCategoryCons(f: Found, rest: seq<Found>, c: string)
    ensures OfCategory([f] + rest, c) == (if f.category == c then 1 else 0) + OfCategory(rest, c)
  {
    assert ([f] + rest)[1..] == rest;
  }

  lemma {:induction false} ApartRest(spans: seq<ExternalSpan>, last: nat)
    requires Apart(spans, last) && spans != []
    ensures last <= spans[0].start && Apart(spans[1..], last) && Apart(spans[1..], spans[0].end)
  {
  }

  /** Spans that are disjoint never take each other's place, observed or not. */
  lemma {:induction false} InsideAreFound(size: nat, origin: nat, spans: seq<ExternalSpan>, observe: set<string>, last: nat, c: string)
    requires (forall s | s in spans :: s.start <= s.end) && Apart(spans, 0) && (last == 0 || Apart(spans, origin + last))
    ensures OfCategory(FoundInSegment(size, origin, spans, observe, last), c) == CountInside(spans, origin, origin + size, c)
    decreases |spans|
  {
    hide Apart, OfCategory;
    if spans == [] {
      NoneFound(c);
    } else {
      var s, rest := spans[0], spans[1..];
      assert s in spans && forall x | x in rest :: x in spans;
      ApartRest(spans, 0);
      if last != 0 {
        ApartRest(spans, origin + last);
      }
      if s.start >= origin && s.end <= origin + size {
        var next := if s.category in observe then last else s.end - origin;
        InsideAreFound(size, origin, rest, observe, next, c);
        OfCategoryCons(Found(s.category, s.category !in observe), FoundInSegment(size, origin, rest, observe, next), c);
      } else {
        InsideAreFound(size, origin, rest, observe, last, c);
      }
    }
  }

  lemma {:induction false} SeenAreFound(segments: seq<Segment>, spans: seq<ExternalSpan>, observe: set<string>, c: string)
    requires (forall s | s in spans :: s.start <= s.end) && Apart(spans, 0)
    ensures OfCategory(FoundIn(segments, spans, observe), c) == Seen(segments, spans, c)
  {
    hide FoundInSegment, CountInside, OfCategory, Apart;
    if segments == [] {
      NoneFound(c);
    } else {
      var s := segments[0];
      SeenAreFound(segments[1..], spans, observe, c);
      if s.Plain? {
        InsideAreFound(|s.text|, s.origin, spans, observe, 0, c);
        OfCategoryConcat(FoundInSegment(|s.text|, s.origin, spans, observe, 0), FoundIn(segments[1..], spans, observe), c);
      } else {
        OfCategoryConcat([], FoundIn(segments[1..], spans, observe), c);
        NoneFound(c);
      }
    }
  }

  lemma {:induction false} NoneFound(c: string)
    ensures OfCategory([], c) == 0
  {
  }

  // ---------- the entries ----------

  function CountOf(ds: seq<Detection>, c: string): nat {
    if ds == [] then 0 else if ds[0].category == c then ds[0].count else CountOf(ds[1..], c)
  }

  /** No category has two entries, and none counts nothing. */
  predicate OneEach(ds: seq<Detection>) {
    && (forall d | d in ds :: d.count > 0)
    && (forall i, j | 0 <= i < j < |ds| :: ds[i].category != ds[j].category)
  }

  lemma {:induction false} OneEachCons(d: Detection, rest: seq<Detection>)
    requires d.count > 0 && OneEach(rest) && forall e | e in rest :: e.category != d.category
    ensures OneEach([d] + rest)
  {
    var ds := [d] + rest;
    forall i, j | 0 <= i < j < |ds| ensures ds[i].category != ds[j].category {
      assert ds[j] == rest[j - 1] && rest[j - 1] in rest;
      assert i > 0 ==> ds[i] == rest[i - 1];
    }
  }

  lemma {:induction false} OneEachRest(ds: seq<Detection>)
    requires OneEach(ds) && ds != []
    ensures ds[0].count > 0 && OneEach(ds[1..]) && forall e | e in ds[1..] :: e.category != ds[0].category
  {
    assert forall e | e in ds[1..] :: e in ds;
    assert ds[0] in ds;
  }

  lemma {:induction false} CountHitCounts(ds: seq<Detection>, f: Found, c: string)
    requires OneEach(ds)
    ensures OneEach(CountHit(ds, f))
    ensures CountOf(CountHit(ds, f), c) == CountOf(ds, c) + if f.category == c then 1 else 0
    ensures forall d | d in CountHit(ds, f) :: d.category == f.category || exists e :: e in ds && e.category == d.category
  {
    if ds == [] {
      OneEachCons(CountHit(ds, f)[0], []);
    } else {
      hide OneEach;
      var first, rest := ds[0], ds[1..];
      assert ds == [first] + rest;
      OneEachRest(ds);
      if first.category == f.category {
        OneEachCons(first.(count := first.count + 1), rest);
      } else {
        CountHitCounts(rest, f, c);
        var tail := CountHit(rest, f);
        assert ([first] + tail)[1..] == tail;
        OneEachCons(first, tail);
      }
    }
  }

  lemma {:induction false} CountAllCounts(ds: seq<Detection>, found: seq<Found>, c: string)
    requires OneEach(ds)
    ensures OneEach(CountAll(ds, found))
    ensures CountOf(CountAll(ds, found), c) == CountOf(ds, c) + OfCategory(found, c)
    decreases |found|
  {
    hide OneEach, CountHit, CountOf;
    if found != [] {
      CountHitCounts(ds, found[0], c);
      CountAllCounts(CountHit(ds, found[0]), found[1..], c);
    }
  }

  lemma {:induction false} CountAllFlags(ds: seq<Detection>, found: seq<Found>, observe: set<string>)
    requires Consistent(ds, observe) && forall f | f in found :: f.tokenized == (f.category !in observe)
    ensures Consistent(CountAll(ds, found), observe)
    decreases |found|
  {
    hide Consistent, CountHit;
    if found != [] {
      assert found[0] in found;
      CountHitReports(ds, found[0], observe, "");
      CountAllFlags(CountHit(ds, found[0]), found[1..], observe);
    }
  }

  lemma {:induction false} EntryIsCounted(ds: seq<Detection>, d: Detection)
    requires OneEach(ds)
    ensures d in ds ==> CountOf(ds, d.category) == d.count
    ensures CountOf(ds, d.category) > 0 ==> exists e :: e in ds && e.category == d.category && e.count == CountOf(ds, d.category)
  {
    if ds != [] {
      var rest := ds[1..];
      assert ds == [ds[0]] + rest && forall x | x in rest :: x in ds;
      EntryIsCounted(rest, d);
      if ds[0].category == d.category {
        assert ds[0] in ds;
      }
    }
  }

  lemma {:induction false} EntriesAre(ds: seq<Detection>, observe: set<string>, d: Detection)
    requires OneEach(ds) && Consistent(ds, observe)
    ensures d in ds <==> d.count > 0 && d.count == CountOf(ds, d.category) && d.tokenized == (d.category !in observe)
  {
    EntryIsCounted(ds, d);
    if CountOf(ds, d.category) > 0 {
      var e :| e in ds && e.category == d.category && e.count == CountOf(ds, d.category);
      assert d.count == e.count && d.tokenized == (d.category !in observe) ==> d == e;
    }
  }

  lemma {:induction false} ObserveOnlyAre(rules: seq<Rule>, c: string)
    ensures c in ObserveOnly(rules) <==> exists i :: 0 <= i < |rules| && !rules[i].tokenize && rules[i].category == c
  {
    if |rules| != 0 {
      ObserveOnlyAre(rules[1..], c);
      if i :| 0 <= i < |rules[1..]| && !rules[1..][i].tokenize && rules[1..][i].category == c {
        assert rules[i + 1] == rules[1..][i];
      }
      if i :| 0 <= i < |rules| && !rules[i].tokenize && rules[i].category == c {
        if i > 0 {
          assert rules[1..][i - 1] == rules[i];
        }
      }
    }
  }

  /** The detector's report: one entry for each category of which a normalized span lies in a plain segment
      the rules left, counting those spans, and marked as tokenized unless some rule only observes it. */
  lemma {:induction false} DetectorReportExactly(k: Sealer, rules: seq<Rule>, text: string, external: seq<ExternalSpan>)
    requires Outcome(k, rules, text, external).Ok?
    ensures var ds := Outcome(k, rules, text, external).value.external;
            var left := ApplyRules(k, rules, MaskedSegments(text)).value;
            && (forall i, j | 0 <= i < j < |ds| :: ds[i].category != ds[j].category)
            && forall d :: d in ds <==>
                 && d.count > 0 && d.count == Seen(left, Normalize(text, external), d.category)
                 && (d.tokenized <==> !exists i :: 0 <= i < |rules| && !rules[i].tokenize && rules[i].category == d.category)
  {
    hide ApplyRules, ApplyExternal, Normalize, ObserveOnly, RuleDetections, FoundIn, CountAll, Shown, MaskedSegments, Seen, Apart, Consistent, CountOf, OfCategory;
    var left := ApplyRules(k, rules, MaskedSegments(text)).value;
    var spans, observe := Normalize(text, external), ObserveOnly(rules);
    NormalizeIsOrdered(text, external);
    var found := FoundIn(left, spans, observe);
    FlagsEverywhere(left, spans, observe);
    NothingReported(observe);
    CountAllFlags([], found, observe);
    var ds := CountAll([], found);
    CountAllCounts([], found, "");
    forall d: Detection
      ensures d in ds <==>
                && d.count > 0 && d.count == Seen(left, spans, d.category)
                && (d.tokenized <==> !exists i :: 0 <= i < |rules| && !rules[i].tokenize && rules[i].category == d.category)
    {
      CountAllCounts([], found, d.category);
      SeenAreFound(left, spans, observe, d.category);
      EntriesAre(ds, observe, d);
      ObserveOnlyAre(rules, d.category);
      NothingCounted(d.category);
    }
  }

  lemma {:induction false} NothingReported(observe: set<string>)
    ensures OneEach([]) && Consistent([], observe)
  {
  }

  lemma {:induction false} NothingCounted(c: string)
    ensures CountOf([], c) == 0
  {
  }
}
