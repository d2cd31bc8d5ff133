/** Merging, snapping to words, and merging again. */
module MergeSpans {
  import opened Ordering

  datatype Found = Found(start: nat, end: nat, category: string, confidence: real)

  predicate LexLe(a: string, b: string) {
    a == [] || (b != [] && (a[0] < b[0] || (a[0] == b[0] && LexLe(a[1..], b[1..]))))
  }

  /** By start, the longer first, then by category. */
  predicate Before(a: Found, b: Found) {
    a.start < b.start || (a.start == b.start && (a.end > b.end || (a.end == b.end && LexLe(a.category, b.category))))
  }

  function Max(a: nat, b: nat): nat { if a < b then b else a }

  function MaxReal(a: real, b: real): real { if a < b then b else a }

  function Absorb(last: Found, s: Found): Found {
    last.(end := Max(last.end, s.end), confidence := MaxReal(last.confidence, s.confidence))
  }

  /** Each span joins the last kept one of its category if it reaches it, starts a new one if it lies
      past it, and is dropped if it begins inside one of another category. */
  function MergeSorted(spans: seq<Found>): seq<Found> {
    if spans == [] then []
    else
      var out := MergeSorted(spans[..|spans| - 1]);
      var s := spans[|spans| - 1];
      if out != [] && out[|out| - 1].category == s.category && s.start <= out[|out| - 1].end then
        out[..|out| - 1] + [Absorb(out[|out| - 1], s)]
      else if out == [] || s.start >= out[|out| - 1].end then out + [s]
      else out
  }

  function Merge(spans: seq<Found>): seq<Found> { MergeSorted(Sort(spans, Before)) }

  method MergeSameLabel(spans: seq<Found>) returns (out: seq<Found>)
    ensures out == Merge(spans)
  {
    var ordered := Sort(spans, Before);
    out := [];
    for i := 0 to |ordered|
      invariant out == MergeSorted(ordered[..i])
    {
      var s := ordered[i];
      assert ordered[..i + 1][..i] == ordered[..i];
      if out != [] && out[|out| - 1].category == s.category && s.start <= out[|out| - 1].end {
        var last := out[|out| - 1];
        last := last.(end := Max(last.end, s.end));
        last := last.(confidence := MaxReal(last.confidence, s.confidence));
        out := out[|out| - 1 := last];
      } else if out == [] || s.start >= out[|out| - 1].end {
        out := out + [s];
      }
    }
    assert ordered[..|ordered|] == ordered;
  }

  // ---------- the order ----------

  lemma {:induction false} LexIsLinear(a: string, b: string, c: string)
    ensures LexLe(a, b) || LexLe(b, a)
    ensures LexLe(a, b) && LexLe(b, c) ==> LexLe(a, c)
  {
    if a != [] && b != [] {
      LexIsLinear(a[1..], b[1..], if c != [] then c[1..] else []);
    }
  }

  lemma {:induction false} BeforeIsLinear()
    ensures Linear(Before)
  {
    forall x, y ensures Before(x, y) || Before(y, x) {
      LexIsLinear(x.category, y.category, []);
    }
    forall x, y, z | Before(x, y) && Before(y, z) ensures Before(x, z) {
      LexIsLinear(x.category, y.category, z.category);
    }
  }

  predicate ByStart(spans: seq<Found>) {
    forall i, j | 0 <= i < j < |spans| :: spans[i].start <= spans[j].start
  }

  predicate AllCover(spans: seq<Found>) { forall s | s in spans :: s.start < s.end }

  lemma {:induction false} SortedByStart(spans: seq<Found>)
    requires AllCover(spans)
    ensures ByStart(Sort(spans, Before)) && AllCover(Sort(spans, Before))
    ensures forall s :: s in Sort(spans, Before) <==> s in spans
  {
    BeforeIsLinear();
    SortSorts(spans, Before);
    forall s ensures s in Sort(spans, Before) <==> s in spans {
      SortMembers(spans, Before, s);
    }
    assert forall a, b :: Before(a, b) ==> a.start <= b.start;
  }

  // ---------- one more span ----------

  lemma {:induction false} MergeSnoc(spans: seq<Found>, s: Found)
    ensures var out := MergeSorted(spans);
            MergeSorted(spans + [s]) ==
            if out != [] && out[|out| - 1].category == s.category && s.start <= out[|out| - 1].end then
              out[..|out| - 1] + [Absorb(out[|out| - 1], s)]
            else if out == [] || s.start >= out[|out| - 1].end then out + [s]
            else out
  {
    assert (spans + [s])[..|spans|] == spans;
  }

  // ---------- the output is in order and apart ----------

  /** One span follows another, and does not touch it if it has its category. */
  predicate Follows(a: Found, b: Found) { a.end <= b.start && (a.category == b.category ==> a.end < b.start) }

  /** Non-empty, sorted, disjoint, and neighbours of one category strictly apart. */
  predicate Apart(out: seq<Found>) {
    && (forall i | 0 <= i < |out| :: out[i].start < out[i].end)
    && (forall i | 0 <= i < |out| - 1 :: Follows(out[i], out[i + 1]))
  }

  lemma {:induction false} ApartSnoc(out: seq<Found>, s: Found)
    requires Apart(out) && s.start < s.end && (out != [] ==> Follows(out[|out| - 1], s))
    ensures Apart(out + [s])
  {
  }

  lemma {:induction false} ApartLonger(out: seq<Found>, s: Found)
    requires Apart(out) && out != []
    ensures Apart(out[..|out| - 1] + [Absorb(out[|out| - 1], s)])
  {
    var last := |out| - 1;
    var longer := out[..last] + [Absorb(out[last], s)];
    assert forall i | 0 <= i < last :: longer[i] == out[i];
    assert forall i | 0 <= i < last :: Follows(out[i], out[i + 1]);
  }

  lemma {:induction false} MergeSortedIsApart(spans: seq<Found>)
    requires AllCover(spans)
    ensures Apart(MergeSorted(spans))
  {
    if spans != [] {
      hide MergeSorted, Apart;
      var init, s := spans[..|spans| - 1], spans[|spans| - 1];
      assert spans == init + [s];
      MergeSnoc(init, s);
      MergeSortedIsApart(init);
      var out := MergeSorted(init);
      if out != [] && out[|out| - 1].category == s.category && s.start <= out[|out| - 1].end {
        ApartLonger(out, s);
      } else if out == [] || s.start >= out[|out| - 1].end {
        ApartSnoc(out, s);
      }
    }
  }

  lemma {:induction false} ApartIsByStart(out: seq<Found>, i: nat, j: nat)
    requires Apart(out) && i < j < |out|
    ensures out[i].end <= out[j].start
    decreases j
  {
    if i < j - 1 {
      ApartIsByStart(out, i, j - 1);
      assert Follows(out[j - 1], out[j]);
    }
  }

  lemma {:induction false} MergeSortedKeepsApart(out: seq<Found>)
    requires Apart(out)
    ensures MergeSorted(out) == out
  {
    if out != [] {
      var init, s := out[..|out| - 1], out[|out| - 1];
      assert Apart(init) by {
        assert forall i | 0 <= i < |init| - 1 :: Follows(out[i], out[i + 1]);
      }
      MergeSortedKeepsApart(init);
      assert init != [] ==> Follows(out[|out| - 2], out[|out| - 1]);
    }
  }

  /** Merging gives non-empty spans in order, apart, and merging those again changes nothing. */
  lemma {:induction false} MergedAreApart(spans: seq<Found>)
    requires AllCover(spans)
    ensures Apart(Merge(spans)) && Merge(Merge(spans)) == Merge(spans)
  {
    SortedByStart(spans);
    MergeSortedIsApart(Sort(spans, Before));
    MergeOfApart(Merge(spans));
  }

  lemma {:induction false} MergeOfApart(out: seq<Found>)
    requires Apart(out)
    ensures Sorted(out, Before) && Merge(out) == out
  {
    forall i, j | 0 <= i < j < |out| ensures Before(out[i], out[j]) {
      ApartIsByStart(out, i, j);
    }
    SortOfSorted(out, Before);
    MergeSortedKeepsApart(out);
  }

  // ---------- what became of each span ----------

  /** A span lies within another of its category that is at least as sure. */
  predicate Within(s: Found, o: Found) {
    o.category == s.category && o.start <= s.start && s.end <= o.end && s.confidence <= o.confidence
  }

  /** A span begins inside another of a different category. */
  predicate Crossed(s: Found, o: Found) { o.category != s.category && o.start <= s.start < o.end }

  predicate Accounted(s: Found, out: seq<Found>) {
    (exists i :: 0 <= i < |out| && Within(s, out[i])) || (exists i :: 0 <= i < |out| && Crossed(s, out[i]))
  }

  /** Later spans only add to the output and lengthen its last span. */
  lemma {:induction false} StaysAccounted(s: Found, out: seq<Found>, next: seq<Found>)
    requires Accounted(s, out) && |out| <= |next|
    requires forall i | 0 <= i < |out| ::
               next[i].start == out[i].start && next[i].category == out[i].category
               && next[i].end >= out[i].end && next[i].confidence >= out[i].confidence
    ensures Accounted(s, next)
  {
    if i :| 0 <= i < |out| && Within(s, out[i]) {
      assert Within(s, next[i]);
    } else {
      var j :| 0 <= j < |out| && Crossed(s, out[j]);
      assert Crossed(s, next[j]);
    }
  }

  lemma {:induction false} StartsAreEarlier(spans: seq<Found>, edge: nat)
    requires forall s | s in spans :: s.start <= edge
    ensures forall i | 0 <= i < |MergeSorted(spans)| :: MergeSorted(spans)[i].start <= edge
  {
    if spans != [] {
      hide MergeSorted;
      var init, s := spans[..|spans| - 1], spans[|spans| - 1];
      assert spans == init + [s];
      MergeSnoc(init, s);
      StartsAreEarlier(init, edge);
      assert s in spans;
    } else {
      assert MergeSorted(spans) == [];
    }
  }

  lemma {:induction false} SortedAreAccounted(spans: seq<Found>, k: nat)
    requires AllCover(spans) && ByStart(spans) && k < |spans|
    ensures Accounted(spans[k], MergeSorted(spans))
    decreases |spans|
  {
    hide MergeSorted, Accounted;
    var init, s := spans[..|spans| - 1], spans[|spans| - 1];
    assert spans == init + [s];
    MergeSnoc(init, s);
    var out, next := MergeSorted(init), MergeSorted(spans);
    if k < |init| {
      SortedAreAccounted(init, k);
      StaysAccounted(init[k], out, next);
    } else {
      StartsAreEarlier(init, s.start);
      LastIsAccounted(out, s, next);
    }
  }

  lemma {:induction false} LastIsAccounted(out: seq<Found>, s: Found, next: seq<Found>)
    requires forall i | 0 <= i < |out| :: out[i].start <= s.start
    requires next ==
             if out != [] && out[|out| - 1].category == s.category && s.start <= out[|out| - 1].end then
               out[..|out| - 1] + [Absorb(out[|out| - 1], s)]
             else if out == [] || s.start >= out[|out| - 1].end then out + [s]
             else out
    ensures Accounted(s, next)
  {
    var last := |next| - 1;
    assert Within(s, next[last]) || Crossed(s, next[last]);
  }

  /** No span is lost without a reason: each lies in an output span of its category at least as sure, or
      begins inside one of another category. */
  lemma {:induction false} EverySpanIsAccounted(spans: seq<Found>, s: Found)
    requires AllCover(spans) && s in spans
    ensures Accounted(s, Merge(spans))
  {
    SortedByStart(spans);
    var ordered := Sort(spans, Before);
    assert s in ordered;
    var k: nat :| k < |ordered| && ordered[k] == s;
    SortedAreAccounted(ordered, k);
  }

  // ---------- who wins where two begin together ----------

  /** Every span seen begins before the last output span ends. */
  lemma {:induction false} StartsAreInside(spans: seq<Found>, i: nat)
    requires AllCover(spans) && ByStart(spans) && i < |spans|
    ensures MergeSorted(spans) != [] && spans[i].start < MergeSorted(spans)[|MergeSorted(spans)| - 1].end
  {
    hide MergeSorted, Accounted;
    SortedAreAccounted(spans, i);
    MergeSortedIsApart(spans);
    BeginsInside(spans[i], MergeSorted(spans));
  }

  lemma {:induction false} BeginsInside(s: Found, out: seq<Found>)
    requires Accounted(s, out) && Apart(out) && s.start < s.end
    ensures out != [] && s.start < out[|out| - 1].end
  {
    var k := |out| - 1;
    if i :| 0 <= i < |out| && Within(s, out[i]) {
      EndsGrow(out, i, k);
    } else {
      var i :| 0 <= i < |out| && Crossed(s, out[i]);
      EndsGrow(out, i, k);
    }
  }

  lemma {:induction false} EndsGrow(out: seq<Found>, i: nat, j: nat)
    requires Apart(out) && i <= j < |out|
    ensures out[i].end <= out[j].end
  {
    if i < j {
      ApartIsByStart(out, i, j);
    }
  }

  /** The span was begun by the first of all spans that begin where it does. */
  predicate BegunBy(spans: seq<Found>, o: Found, j: nat) {
    && j < |spans| && spans[j].start == o.start && spans[j].category == o.category
    && forall i | 0 <= i < j :: spans[i].start < o.start
  }

  lemma {:induction false} NewlyBegun(init: seq<Found>, s: Found)
    requires AllCover(init) && ByStart(init)
    requires MergeSorted(init) == [] || s.start >= MergeSorted(init)[|MergeSorted(init)| - 1].end
    ensures BegunBy(init + [s], s, |init|)
  {
    hide MergeSorted, AllCover, ByStart;
    forall i | 0 <= i < |init| ensures (init + [s])[i].start < s.start {
      StartsAreInside(init, i);
    }
  }

  lemma {:induction false} StillBegun(init: seq<Found>, s: Found, o: Found, wide: Found, j: nat)
    requires BegunBy(init, o, j) && wide.start == o.start && wide.category == o.category
    ensures BegunBy(init + [s], wide, j)
  {
  }

  /** So was every output span. */
  lemma {:induction false} BegunByFirst(spans: seq<Found>, o: Found) returns (j: nat)
    requires AllCover(spans) && ByStart(spans) && o in MergeSorted(spans)
    ensures BegunBy(spans, o, j)
    decreases |spans|
  {
    assert spans != [];
    var init, s := spans[..|spans| - 1], spans[|spans| - 1];
    assert spans == init + [s];
    PrefixIsOrdered(spans);
    MergeSnoc(init, s);
    hide MergeSorted, BegunBy, AllCover, ByStart;
    var out := MergeSorted(init);
    if o in out {
      j := BegunByFirst(init, o);
      StillBegun(init, s, o, o, j);
    } else if out != [] && out[|out| - 1].category == s.category && s.start <= out[|out| - 1].end {
      j := BegunByFirst(init, out[|out| - 1]);
      StillBegun(init, s, out[|out| - 1], o, j);
    } else {
      j := |spans| - 1;
      NewlyBegun(init, s);
    }
  }

  lemma {:induction false} PrefixIsOrdered(spans: seq<Found>)
    requires AllCover(spans) && ByStart(spans) && spans != []
    ensures AllCover(spans[..|spans| - 1]) && ByStart(spans[..|spans| - 1])
  {
  }

  /** Where spans of different categories begin together, the longer one wins, and of equally long ones the
      one whose category sorts first. */
  lemma {:induction false} LongerWins(spans: seq<Found>, s: Found, o: Found)
    requires AllCover(spans) && s in spans && o in Merge(spans) && o.start == s.start && o.category != s.category
    ensures exists t :: t in spans && t.start == s.start && t.category == o.category
                        && (t.end > s.end || (t.end == s.end && LexLe(t.category, s.category)))
  {
    hide MergeSorted, LexLe;
    SortedByStart(spans);
    BeforeIsLinear();
    SortSorts(spans, Before);
    var ordered := Sort(spans, Before);
    var j := BegunByFirst(ordered, o);
    assert BegunBy(ordered, o, j);
    assert s in ordered;
    var i :| 0 <= i < |ordered| && ordered[i] == s;
    assert j < i;
    assert Before(ordered[j], ordered[i]);
    assert ordered[j] in spans;
  }

  // ---------- nothing is made up ----------

  predicate Inside(s: Found, o: Found) { s.category == o.category && o.start <= s.start && s.end <= o.end }

  predicate CoversAt(s: Found, p: nat) { s.start <= p < s.end }

  predicate CoveredAt(o: Found, spans: seq<Found>, p: nat) {
    exists i :: 0 <= i < |spans| && Inside(spans[i], o) && CoversAt(spans[i], p)
  }

  /** Every position of an output span lies in a given span inside it, and one of those is as sure. */
  predicate MadeOf(o: Found, spans: seq<Found>) {
    && (forall p: nat | o.start <= p < o.end :: CoveredAt(o, spans, p))
    && (exists i :: 0 <= i < |spans| && Inside(spans[i], o) && spans[i].confidence == o.confidence)
  }

  lemma {:induction false} StaysMadeOf(o: Found, spans: seq<Found>, s: Found)
    requires MadeOf(o, spans)
    ensures MadeOf(o, spans + [s])
  {
    var more := spans + [s];
    assert forall i | 0 <= i < |spans| :: more[i] == spans[i];
    forall p: nat | o.start <= p < o.end ensures CoveredAt(o, more, p) {
      assert CoveredAt(o, spans, p);
      var i :| 0 <= i < |spans| && Inside(spans[i], o) && CoversAt(spans[i], p);
      assert Inside(more[i], o) && CoversAt(more[i], p);
    }
    var i :| 0 <= i < |spans| && Inside(spans[i], o) && spans[i].confidence == o.confidence;
    assert Inside(more[i], o) && more[i].confidence == o.confidence;
  }

  lemma {:induction false} AbsorbedMadeOf(o: Found, spans: seq<Found>, s: Found)
    requires MadeOf(o, spans) && o.category == s.category && o.start <= s.start <= o.end
    ensures MadeOf(Absorb(o, s), spans + [s])
  {
    var more, wide := spans + [s], Absorb(o, s);
    assert forall i | 0 <= i < |spans| :: more[i] == spans[i];
    assert Inside(more[|spans|], wide);
    forall p: nat | wide.start <= p < wide.end
      ensures CoveredAt(wide, more, p)
    {
      if p < o.end {
        assert CoveredAt(o, spans, p);
        var i :| 0 <= i < |spans| && Inside(spans[i], o) && CoversAt(spans[i], p);
        assert Inside(more[i], wide) && CoversAt(more[i], p);
      } else {
        assert CoversAt(more[|spans|], p);
      }
    }
    var i :| 0 <= i < |spans| && Inside(spans[i], o) && spans[i].confidence == o.confidence;
    assert Inside(more[i], wide);
    assert more[i].confidence == wide.confidence || more[|spans|].confidence == wide.confidence;
  }

  lemma {:induction false} AloneMadeOf(spans: seq<Found>, s: Found)
    ensures MadeOf(s, spans + [s])
  {
    var more := spans + [s];
    assert Inside(more[|spans|], s);
    forall p: nat | s.start <= p < s.end ensures CoveredAt(s, more, p) {
      assert CoversAt(more[|spans|], p);
    }
  }

  lemma {:induction false} SortedAreMadeOf(spans: seq<Found>, o: Found)
    requires ByStart(spans) && o in MergeSorted(spans)
    ensures MadeOf(o, spans)
  {
    assert spans != [];
    hide MergeSorted, MadeOf;
    var init, s := spans[..|spans| - 1], spans[|spans| - 1];
    assert spans == init + [s];
    MergeSnoc(init, s);
    var out := MergeSorted(init);
    if o in out {
      SortedAreMadeOf(init, o);
      StaysMadeOf(o, init, s);
    } else if o == s {
      AloneMadeOf(init, s);
    } else {
      var last := out[|out| - 1];
      StartsAreEarlier(init, s.start);
      SortedAreMadeOf(init, last);
      AbsorbedMadeOf(last, init, s);
    }
  }

  /** Merging makes nothing up: each output span is exactly covered by given spans of its category. */
  lemma {:induction false} MergedAreMadeOf(spans: seq<Found>, o: Found)
    requires AllCover(spans) && o in Merge(spans)
    ensures MadeOf(o, spans)
  {
    SortedByStart(spans);
    var ordered := Sort(spans, Before);
    SortedAreMadeOf(ordered, o);
    forall i | 0 <= i < |ordered| ensures exists j :: 0 <= j < |spans| && spans[j] == ordered[i] {
      assert ordered[i] in spans;
    }
    forall p: nat | o.start <= p < o.end ensures CoveredAt(o, spans, p) {
      assert CoveredAt(o, ordered, p);
      var i :| 0 <= i < |ordered| && Inside(ordered[i], o) && CoversAt(ordered[i], p);
      var j :| 0 <= j < |spans| && spans[j] == ordered[i];
    }
    var i :| 0 <= i < |ordered| && Inside(ordered[i], o) && ordered[i].confidence == o.confidence;
    var j :| 0 <= j < |spans| && spans[j] == ordered[i];
  }
}
