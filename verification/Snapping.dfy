/** Widening spans to whole words, between two merges. */
module Snapping {
  import opened Text
  import opened Ordering
  import opened MergeSpans

  const CONNECTORS: set<char> := {'-', '\'', '\U{2019}'}

  /** Whether the character before a position belongs to the same word. */
  predicate WordBefore(text: string, s: nat, alnum: char -> bool)
    requires s <= |text|
  {
    s > 0 && (alnum(text[s - 1]) || (text[s - 1] in CONNECTORS && s >= 2 && alnum(text[s - 2])))
  }

  /** Whether the character at a position belongs to the same word. */
  predicate WordAfter(text: string, e: nat, alnum: char -> bool)
    requires e <= |text|
  {
    e < |text| && (alnum(text[e]) || (text[e] in CONNECTORS && e + 1 < |text| && alnum(text[e + 1])))
  }

  /** The nearest places, outwards, where the word ends. */
  predicate AreWordEdges(text: string, start: nat, end: nat, s: nat, e: nat, alnum: char -> bool)
    requires start <= |text| && end <= |text|
  {
    && s <= start && end <= e <= |text|
    && !WordBefore(text, s, alnum) && (forall k | s < k <= start :: WordBefore(text, k, alnum))
    && !WordAfter(text, e, alnum) && (forall k | end <= k < e :: WordAfter(text, k, alnum))
  }

  function LeftEdge(text: string, s: nat, alnum: char -> bool): nat
    requires s <= |text|
  {
    if WordBefore(text, s, alnum) then LeftEdge(text, s - 1, alnum) else s
  }

  function RightEdge(text: string, e: nat, alnum: char -> bool): nat
    requires e <= |text|
    decreases |text| - e
  {
    if WordAfter(text, e, alnum) then RightEdge(text, e + 1, alnum) else e
  }

  /** Widens a span of bytes to whole words; an offset inside a character counts from its beginning. */
  method Snap(text: string, start: nat, end: nat, alnum: char -> bool) returns (first: nat, past: nat)
    ensures var s, e := LeftEdge(text, CharIndex(text, start), alnum), RightEdge(text, CharIndex(text, end), alnum);
            && AreWordEdges(text, CharIndex(text, start), CharIndex(text, end), s, e, alnum)
            && first == Utf8Len(text[..s]) && past == Utf8Len(text[..e])
            && CharIndex(text, first) == s && CharIndex(text, past) == e
  {
    var s: nat := CharIndex(text, start);
    while s > 0
      invariant s <= CharIndex(text, start) && LeftEdge(text, s, alnum) == LeftEdge(text, CharIndex(text, start), alnum)
      invariant forall k | s < k <= CharIndex(text, start) :: WordBefore(text, k, alnum)
    {
      var c := text[s - 1];
      if alnum(c) {
        s := s - 1;
      } else if c in CONNECTORS && s >= 2 && alnum(text[s - 2]) {
        s := s - 1;
      } else {
        break;
      }
    }
    var e: nat := CharIndex(text, end);
    while e < |text|
      invariant CharIndex(text, end) <= e <= |text|
      invariant RightEdge(text, e, alnum) == RightEdge(text, CharIndex(text, end), alnum)
      invariant forall k | CharIndex(text, end) <= k < e :: WordAfter(text, k, alnum)
    {
      var c := text[e];
      if alnum(c) {
        e := e + 1;
      } else if c in CONNECTORS && e + 1 < |text| && alnum(text[e + 1]) {
        e := e + 1;
      } else {
        break;
      }
    }
    CharIndexOfOffset(text, s);
    CharIndexOfOffset(text, e);
    return Utf8Len(text[..s]), Utf8Len(text[..e]);
  }

  /** Two positions are the word's edges in one way only, and they are where snapping goes. */
  lemma {:induction false} EdgesAreNearest(text: string, start: nat, end: nat, alnum: char -> bool)
    requires start <= |text| && end <= |text|
    ensures AreWordEdges(text, start, end, LeftEdge(text, start, alnum), RightEdge(text, end, alnum), alnum)
  {
    LeftIsNearest(text, start, alnum);
    RightIsNearest(text, end, alnum);
  }

  lemma {:induction false} LeftIsNearest(text: string, start: nat, alnum: char -> bool)
    requires start <= |text|
    ensures var s := LeftEdge(text, start, alnum);
            s <= start && !WordBefore(text, s, alnum) && forall k | s < k <= start :: WordBefore(text, k, alnum)
  {
    if WordBefore(text, start, alnum) {
      LeftIsNearest(text, start - 1, alnum);
    }
  }

  lemma {:induction false} RightIsNearest(text: string, end: nat, alnum: char -> bool)
    requires end <= |text|
    ensures var e := RightEdge(text, end, alnum);
            end <= e <= |text| && !WordAfter(text, e, alnum) && forall k | end <= k < e :: WordAfter(text, k, alnum)
    decreases |text| - end
  {
    if WordAfter(text, end, alnum) {
      RightIsNearest(text, end + 1, alnum);
    }
  }

  /** What a word's edges mean: no letter or digit stands on the other side, nor a hyphen or an apostrophe
      with one behind it; and everything in between belongs to the word. */
  lemma {:induction false} EdgesAreBetweenWords(text: string, start: nat, end: nat, s: nat, e: nat, alnum: char -> bool)
    requires start <= |text| && end <= |text| && AreWordEdges(text, start, end, s, e, alnum)
    ensures s > 0 ==> !alnum(text[s - 1])
    ensures s > 1 && (text[s - 1] == '-' || text[s - 1] == '\'' || text[s - 1] == '\U{2019}') ==> !alnum(text[s - 2])
    ensures e < |text| ==> !alnum(text[e])
    ensures e + 1 < |text| && (text[e] == '-' || text[e] == '\'' || text[e] == '\U{2019}') ==> !alnum(text[e + 1])
    ensures forall k | s <= k < start || end <= k < e ::
              alnum(text[k]) || text[k] == '-' || text[k] == '\'' || text[k] == '\U{2019}'
  {
    forall k | s <= k < start ensures alnum(text[k]) || text[k] in CONNECTORS {
      assert WordBefore(text, k + 1, alnum);
    }
    forall k | end <= k < e ensures alnum(text[k]) || text[k] in CONNECTORS {
      assert WordAfter(text, k, alnum);
    }
  }

  // ---------- merge, snap, merge ----------

  function Snapped(text: string, alnum: char -> bool, o: Found): Found
    requires o.start <= o.end <= |text|
  {
    o.(start := LeftEdge(text, o.start, alnum), end := RightEdge(text, o.end, alnum))
  }

  predicate InText(text: string, spans: seq<Found>) { forall o | o in spans :: o.start < o.end <= |text| }

  function SnapAll(text: string, alnum: char -> bool, spans: seq<Found>): (r: seq<Found>)
    requires InText(text, spans)
    ensures |r| == |spans| && forall i | 0 <= i < |r| :: r[i] == Snapped(text, alnum, spans[i])
  {
    if spans == [] then [] else [Snapped(text, alnum, spans[0])] + SnapAll(text, alnum, spans[1..])
  }

  /** Neither end of a span cuts a word. */
  predicate CutsNoWord(text: string, o: Found, alnum: char -> bool)
    requires o.start <= o.end <= |text|
  {
    !WordBefore(text, o.start, alnum) && !WordAfter(text, o.end, alnum)
  }

  lemma {:induction false} SnappedCutNoWord(text: string, alnum: char -> bool, spans: seq<Found>)
    requires InText(text, spans)
    ensures var snapped := SnapAll(text, alnum, spans);
            InText(text, snapped) && forall o | o in snapped :: CutsNoWord(text, o, alnum)
  {
    var snapped := SnapAll(text, alnum, spans);
    forall i | 0 <= i < |snapped| ensures snapped[i].start < snapped[i].end <= |text| && CutsNoWord(text, snapped[i], alnum) {
      var o := spans[i];
      assert o in spans;
      EdgesAreNearest(text, o.start, o.end, alnum);
    }
  }

  /** Merged spans lie in the text and cut words only where the given ones do. */
  lemma {:induction false} MergedCutNoWord(text: string, alnum: char -> bool, spans: seq<Found>, o: Found)
    requires InText(text, spans) && o in Merge(spans)
    ensures o.start < o.end <= |text|
    ensures (forall s | s in spans :: CutsNoWord(text, s, alnum)) ==> CutsNoWord(text, o, alnum)
  {
    MergedAreApart(spans);
    MergedAreMadeOf(spans, o);
    assert CoveredAt(o, spans, o.start) && CoveredAt(o, spans, o.end - 1);
    var i :| 0 <= i < |spans| && Inside(spans[i], o) && CoversAt(spans[i], o.start);
    var j :| 0 <= j < |spans| && Inside(spans[j], o) && CoversAt(spans[j], o.end - 1);
    assert spans[i] in spans && spans[j] in spans;
    assert spans[i].start == o.start && spans[j].end == o.end;
  }

  /** By start, then end, then category. */
  predicate FinalOrder(a: Found, b: Found) {
    a.start < b.start || (a.start == b.start && (a.end < b.end || (a.end == b.end && LexLe(a.category, b.category))))
  }

  /** The spans a text is expected to show, from those decoded in all its windows. */
  function Expected(text: string, alnum: char -> bool, kept: seq<Found>): seq<Found>
    requires InText(text, kept)
  {
    var merged := Merge(kept);
    assert InText(text, merged) by {
      forall o | o in merged ensures o.start < o.end <= |text| {
        MergedCutNoWord(text, alnum, kept, o);
      }
    }
    Sort(Merge(SnapAll(text, alnum, merged)), FinalOrder)
  }

  /** The last sort finds them already in order. */
  lemma {:induction false} ExpectedAreMerged(text: string, alnum: char -> bool, kept: seq<Found>)
    requires InText(text, kept)
    ensures InText(text, Merge(kept)) && InText(text, SnapAll(text, alnum, Merge(kept)))
    ensures forall o | o in SnapAll(text, alnum, Merge(kept)) :: CutsNoWord(text, o, alnum)
    ensures Expected(text, alnum, kept) == Merge(SnapAll(text, alnum, Merge(kept)))
  {
    var merged := Merge(kept);
    forall o | o in merged ensures o.start < o.end <= |text| {
      MergedCutNoWord(text, alnum, kept, o);
    }
    var snapped := SnapAll(text, alnum, merged);
    SnappedCutNoWord(text, alnum, merged);
    MergedAreApart(snapped);
    var final := Merge(snapped);
    forall i, j | 0 <= i < j < |final| ensures FinalOrder(final[i], final[j]) {
      ApartIsByStart(final, i, j);
    }
    SortOfSorted(final, FinalOrder);
  }

  /** They are non-empty, in order, apart, within the text, and none cuts a word; merging or snapping them
      again changes nothing. */
  lemma {:induction false} ExpectedAreWholeWords(text: string, alnum: char -> bool, kept: seq<Found>)
    requires InText(text, kept)
    ensures var final := Expected(text, alnum, kept);
            && Apart(final) && Merge(final) == final
            && InText(text, final) && (forall o | o in final :: CutsNoWord(text, o, alnum))
            && SnapAll(text, alnum, final) == final
  {
    hide Expected, Merge;
    ExpectedAreMerged(text, alnum, kept);
    var snapped := SnapAll(text, alnum, Merge(kept));
    MergedAreApart(snapped);
    var final := Merge(snapped);
    forall o | o in final ensures o.start < o.end <= |text| && CutsNoWord(text, o, alnum) {
      MergedCutNoWord(text, alnum, snapped, o);
    }
    SnapKeepsWholeWords(text, alnum, final);
  }

  /** Each given span lies in a merged one, or begins inside one of another label; and so does that one, widened
      to whole words, in an expected one. */
  lemma {:induction false} EverySpanIsExpected(text: string, alnum: char -> bool, kept: seq<Found>, s: Found)
    returns (m: Found, o: Found)
    requires InText(text, kept) && s in kept
    ensures m in Merge(kept) && m.start < m.end <= |text| && (Within(s, m) || Crossed(s, m))
    ensures var w := Snapped(text, alnum, m); w.start <= m.start && m.end <= w.end && (Within(w, o) || Crossed(w, o))
    ensures o in Expected(text, alnum, kept)
  {
    hide Expected, Merge, Snapped;
    ExpectedAreMerged(text, alnum, kept);
    EverySpanIsAccounted(kept, s);
    m := Accounter(s, Merge(kept));
    var snapped := SnapAll(text, alnum, Merge(kept));
    var i :| 0 <= i < |Merge(kept)| && Merge(kept)[i] == m;
    assert snapped[i] == Snapped(text, alnum, m);
    EverySpanIsAccounted(snapped, snapped[i]);
    o := Accounter(snapped[i], Merge(snapped));
    SnappedIsWider(text, alnum, m);
  }

  lemma {:induction false} SnappedIsWider(text: string, alnum: char -> bool, m: Found)
    requires m.start <= m.end <= |text|
    ensures Snapped(text, alnum, m).start <= m.start && m.end <= Snapped(text, alnum, m).end
  {
    EdgesAreNearest(text, m.start, m.end, alnum);
  }

  lemma {:induction false} Accounter(s: Found, out: seq<Found>) returns (o: Found)
    requires Accounted(s, out)
    ensures o in out && (Within(s, o) || Crossed(s, o))
  {
    if i :| 0 <= i < |out| && Within(s, out[i]) {
      o := out[i];
    } else {
      var i :| 0 <= i < |out| && Crossed(s, out[i]);
      o := out[i];
    }
  }

  /** And nothing is made up: an expected span is covered by merged ones of its label, widened. */
  lemma {:induction false} ExpectedAreMadeOf(text: string, alnum: char -> bool, kept: seq<Found>, o: Found)
    requires InText(text, kept) && o in Expected(text, alnum, kept)
    ensures InText(text, Merge(kept)) && MadeOf(o, SnapAll(text, alnum, Merge(kept)))
  {
    hide Expected, Merge, MadeOf;
    ExpectedAreMerged(text, alnum, kept);
    MergedAreMadeOf(SnapAll(text, alnum, Merge(kept)), o);
  }

  lemma {:induction false} SnapKeepsWholeWords(text: string, alnum: char -> bool, spans: seq<Found>)
    requires InText(text, spans) && forall o | o in spans :: CutsNoWord(text, o, alnum)
    ensures SnapAll(text, alnum, spans) == spans
  {
    forall i | 0 <= i < |spans| ensures SnapAll(text, alnum, spans)[i] == spans[i] {
      assert spans[i] in spans;
    }
  }
}
