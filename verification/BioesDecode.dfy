/** From a category per token to labelled spans of text. */
module BioesDecode {
  import opened Text

  /** "O", or a prefix letter and a category. */
  datatype Tag = Outside | Marked(prefix: string, category: string)

  datatype Token = Token(tag: Tag, start: nat, end: nat)

  datatype LabelledSpan = LabelledSpan(start: nat, end: nat, category: string)

  // ---------- the definition ----------

  /** Tokens that cover no text, or whose prefix is none of the four, change nothing. */
  predicate Heard(t: Token) {
    t.start < t.end && (t.tag.Marked? ==> t.tag.prefix == "B" || t.tag.prefix == "I" || t.tag.prefix == "E" || t.tag.prefix == "S")
  }

  function HeardOnly(tokens: seq<Token>): (ts: seq<Token>)
    ensures forall t | t in ts :: Heard(t)
  {
    if tokens == [] then []
    else
      var before := HeardOnly(tokens[..|tokens| - 1]);
      var t := tokens[|tokens| - 1];
      if Heard(t) then before + [t] else before
  }

  /** Whether a token may be followed by more of its span. */
  predicate StaysOpen(t: Token) { t.tag.Marked? && (t.tag.prefix == "B" || t.tag.prefix == "I") }

  /** Whether a token continues the span of the token before it. */
  predicate Joins(t: Token, u: Token) {
    StaysOpen(t) && u.tag.Marked? && (u.tag.prefix == "I" || u.tag.prefix == "E") && t.tag.category == u.tag.category
  }

  /** One span for each maximal run of joined tokens, from the start of its first to the end of its last. */
  function Runs(ts: seq<Token>): (r: seq<LabelledSpan>)
    ensures ts != [] && ts[|ts| - 1].tag.Marked? ==>
              r != [] && r[|r| - 1].category == ts[|ts| - 1].tag.category && r[|r| - 1].end == ts[|ts| - 1].end
  {
    if ts == [] then []
    else
      var before := Runs(ts[..|ts| - 1]);
      var t := ts[|ts| - 1];
      if t.tag.Outside? then before
      else if |ts| > 1 && Joins(ts[|ts| - 2], t) then
        before[..|before| - 1] + [before[|before| - 1].(end := t.end)]
      else before + [LabelledSpan(t.start, t.end, t.tag.category)]
  }

  function NonEmpty(spans: seq<LabelledSpan>): seq<LabelledSpan> {
    if spans == [] then []
    else
      var last := spans[|spans| - 1];
      NonEmpty(spans[..|spans| - 1]) + (if last.start < last.end then [last] else [])
  }

  /** The spans of a tagged text. */
  function Decoded(tokens: seq<Token>): seq<LabelledSpan> { NonEmpty(Runs(HeardOnly(tokens))) }

  function Zip(tags: seq<Tag>, offsets: seq<(nat, nat)>): (ts: seq<Token>)
    ensures |ts| == if |tags| < |offsets| then |tags| else |offsets|
    ensures forall i | 0 <= i < |ts| :: ts[i] == Token(tags[i], offsets[i].0, offsets[i].1)
  {
    seq(if |tags| < |offsets| then |tags| else |offsets|,
        i requires 0 <= i < |tags| && i < |offsets| => Token(tags[i], offsets[i].0, offsets[i].1))
  }

  // ---------- the loop ----------

  lemma {:induction false} HeardSnoc(tokens: seq<Token>, t: Token)
    ensures HeardOnly(tokens + [t]) == if Heard(t) then HeardOnly(tokens) + [t] else HeardOnly(tokens)
  {
    assert (tokens + [t])[..|tokens|] == tokens;
  }

  lemma {:induction false} RunsSnoc(ts: seq<Token>, t: Token)
    ensures t.tag.Outside? ==> Runs(ts + [t]) == Runs(ts)
    ensures t.tag.Marked? && ts != [] && Joins(ts[|ts| - 1], t) ==>
              var before := Runs(ts);
              Runs(ts + [t]) == before[..|before| - 1] + [before[|before| - 1].(end := t.end)]
    ensures t.tag.Marked? && !(ts != [] && Joins(ts[|ts| - 1], t)) ==>
              Runs(ts + [t]) == Runs(ts) + [LabelledSpan(t.start, t.end, t.tag.category)]
  {
    assert (ts + [t])[..|ts|] == ts;
  }

  lemma {:induction false} NonEmptySnoc(spans: seq<LabelledSpan>, s: LabelledSpan)
    ensures NonEmpty(spans + [s]) == if s.start < s.end then NonEmpty(spans) + [s] else NonEmpty(spans)
  {
    assert (spans + [s])[..|spans|] == spans;
  }

  /** A span is finished: it joins the output unless it is empty. */
  method Close(open: Option<LabelledSpan>, spans: seq<LabelledSpan>) returns (out: seq<LabelledSpan>)
    ensures out == spans + if open.Some? && open.value.start < open.value.end then [open.value] else []
  {
    out := spans;
    if open.Some? && open.value.start < open.value.end {
      out := out + [open.value];
    }
  }

  /** What the loop has gathered: the finished runs, and the run still open if the last token allows one. */
  predicate Gathered(ts: seq<Token>, out: seq<LabelledSpan>, open: Option<LabelledSpan>) {
    && (open.Some? <==> ts != [] && StaysOpen(ts[|ts| - 1]))
    && (open.Some? ==> open.value.category == ts[|ts| - 1].tag.category)
    && (open.None? ==> out == NonEmpty(Runs(ts)))
    && (open.Some? ==> Runs(ts)[|Runs(ts)| - 1] == open.value && out == NonEmpty(Runs(ts)[..|Runs(ts)| - 1]))
  }

  /** Closing the open run gives all runs. */
  lemma {:induction false} CloseGathers(ts: seq<Token>, out: seq<LabelledSpan>, open: Option<LabelledSpan>)
    requires Gathered(ts, out, open)
    ensures out + (if open.Some? && open.value.start < open.value.end then [open.value] else []) == NonEmpty(Runs(ts))
  {
  }

  method DecodeBioes(tags: seq<Tag>, offsets: seq<(nat, nat)>) returns (out: seq<LabelledSpan>)
    ensures out == Decoded(Zip(tags, offsets))
  {
    hide Runs, NonEmpty, HeardOnly, Gathered;
    ghost var tokens := Zip(tags, offsets);
    ghost var ts := [];
    out := [];
    var open: Option<LabelledSpan> := None;
    GatheredNothing();
    for i := 0 to if |tags| < |offsets| then |tags| else |offsets|
      invariant ts == HeardOnly(tokens[..i]) && Gathered(ts, out, open)
    {
      var tag, a, b := tags[i], offsets[i].0, offsets[i].1;
      ghost var t := Token(tag, a, b);
      assert tokens[..i + 1] == tokens[..i] + [t];
      HeardSnoc(tokens[..i], t);
      if b <= a {
        continue;
      }
      GatheredNext(ts, out, open, t);
      match tag {
        case Outside =>
          out := Close(open, out);
          open := None;
          ts := ts + [t];
        case Marked(prefix, category) =>
          if prefix == "S" {
            out := Close(open, out);
            open := None;
            out := out + [LabelledSpan(a, b, category)];
            ts := ts + [t];
          } else if prefix == "B" {
            out := Close(open, out);
            open := Some(LabelledSpan(a, b, category));
            ts := ts + [t];
          } else if prefix == "I" {
            if open.Some? && open.value.category == category {
              open := Some(open.value.(end := b));
            } else {
              out := Close(open, out);
              open := Some(LabelledSpan(a, b, category));
            }
            ts := ts + [t];
          } else if prefix == "E" {
            if open.Some? && open.value.category == category {
              open := Some(open.value.(end := b));
              out := Close(open, out);
              open := None;
            } else {
              out := Close(open, out);
              open := None;
              out := out + [LabelledSpan(a, b, category)];
            }
            ts := ts + [t];
          }
      }
    }
    assert tokens[..|tokens|] == tokens;
    CloseGathers(ts, out, open);
    out := Close(open, out);
  }

  lemma {:induction false} GatheredNothing()
    ensures HeardOnly([]) == [] && Gathered([], [], None)
  {
  }

  function Closed(out: seq<LabelledSpan>, open: Option<LabelledSpan>): seq<LabelledSpan> {
    out + if open.Some? && open.value.start < open.value.end then [open.value] else []
  }

  /** What each kind of token does to what is gathered. */
  lemma {:induction false} GatheredNext(ts: seq<Token>, out: seq<LabelledSpan>, open: Option<LabelledSpan>, t: Token)
    requires Gathered(ts, out, open) && t.start < t.end
    ensures t.tag.Outside? ==> Gathered(ts + [t], Closed(out, open), None)
    ensures t.tag.Marked? ==>
              var alone := LabelledSpan(t.start, t.end, t.tag.category);
              && (t.tag.prefix == "S" ==> Gathered(ts + [t], Closed(out, open) + [alone], None))
              && (t.tag.prefix == "B" ==> Gathered(ts + [t], Closed(out, open), Some(alone)))
              && (open.Some? && open.value.category == t.tag.category ==>
                    var longer := open.value.(end := t.end);
                    && (t.tag.prefix == "I" ==> Gathered(ts + [t], out, Some(longer)))
                    && (t.tag.prefix == "E" ==> Gathered(ts + [t], Closed(out, Some(longer)), None)))
              && (!(open.Some? && open.value.category == t.tag.category) ==>
                    && (t.tag.prefix == "I" ==> Gathered(ts + [t], Closed(out, open), Some(alone)))
                    && (t.tag.prefix == "E" ==> Gathered(ts + [t], Closed(out, open) + [alone], None)))
  {
    hide Runs, NonEmpty;
    CloseGathers(ts, out, open);
    RunsSnoc(ts, t);
    var runs := Runs(ts);
    if t.tag.Marked? {
      var alone := LabelledSpan(t.start, t.end, t.tag.category);
      NonEmptySnoc(runs, alone);
      if ts != [] && Joins(ts[|ts| - 1], t) {
        NonEmptySnoc(runs[..|runs| - 1], runs[|runs| - 1].(end := t.end));
        var next := Runs(ts + [t]);
        assert next[..|next| - 1] == runs[..|runs| - 1];
      } else {
        assert (runs + [alone])[..|runs|] == runs;
      }
    }
  }

  // ---------- what the runs are ----------

  /** Tokens that cover text and follow one another. */
  predicate Ordered(ts: seq<Token>) {
    && (forall i | 0 <= i < |ts| :: ts[i].start < ts[i].end)
    && (forall i, j | 0 <= i < j < |ts| :: ts[i].end <= ts[j].start)
  }

  predicate Disjoint(spans: seq<LabelledSpan>) {
    && (forall i | 0 <= i < |spans| :: spans[i].start < spans[i].end)
    && (forall i, j | 0 <= i < j < |spans| :: spans[i].end <= spans[j].start)
  }

  predicate Holds(s: LabelledSpan, t: Token) { s.start <= t.start && t.end <= s.end }

  predicate Touches(s: LabelledSpan, t: Token) { s.start < t.end && t.start < s.end }

  predicate Within(spans: seq<LabelledSpan>, edge: nat) {
    forall i | 0 <= i < |spans| :: spans[i].end <= edge
  }

  lemma {:induction false} DisjointSnoc(spans: seq<LabelledSpan>, s: LabelledSpan)
    requires Disjoint(spans) && Within(spans, s.start) && s.start < s.end
    ensures Disjoint(spans + [s]) && Within(spans + [s], s.end)
  {
  }

  lemma {:induction false} DisjointLonger(spans: seq<LabelledSpan>, end: nat)
    requires Disjoint(spans) && Within(spans, end) && spans != []
    ensures var longer := spans[..|spans| - 1] + [spans[|spans| - 1].(end := end)];
            Disjoint(longer) && Within(longer, end)
  {
    var last := |spans| - 1;
    var longer := spans[..last] + [spans[last].(end := end)];
    assert forall i | 0 <= i < last :: longer[i] == spans[i];
    assert spans[last].start < spans[last].end <= end;
  }

  lemma {:induction false} OrderedInit(ts: seq<Token>)
    requires Ordered(ts) && ts != []
    ensures var init, t := ts[..|ts| - 1], ts[|ts| - 1];
            && Ordered(init) && t.start < t.end && (init != [] ==> init[|init| - 1].end <= t.start)
            && ts == init + [t]
  {
  }

  lemma {:induction false} NothingWithin(edge: nat)
    ensures Within([], edge)
  {
  }

  lemma {:induction false} LastWithin(spans: seq<LabelledSpan>, edge: nat)
    requires Within(spans, edge) && spans != []
    ensures spans[|spans| - 1].end <= edge
  {
  }

  lemma {:induction false} WithinMore(spans: seq<LabelledSpan>, a: nat, b: nat)
    requires Within(spans, a) && a <= b
    ensures Within(spans, b)
  {
  }

  lemma {:induction false} RunsAreDisjoint(ts: seq<Token>)
    requires Ordered(ts)
    ensures Disjoint(Runs(ts))
    ensures ts != [] ==> Within(Runs(ts), ts[|ts| - 1].end)
    ensures ts == [] ==> Runs(ts) == []
    decreases |ts|
  {
    if ts != [] {
      hide Runs, Disjoint, Ordered, Joins, Within;
      var init, t := ts[..|ts| - 1], ts[|ts| - 1];
      OrderedInit(ts);
      RunsAreDisjoint(init);
      if init == [] {
        NothingWithin(t.start);
      } else {
        WithinMore(Runs(init), init[|init| - 1].end, t.start);
      }
      OneMoreRun(init, t);
    }
  }

  lemma {:induction false} OneMoreRun(ts: seq<Token>, t: Token)
    requires Disjoint(Runs(ts)) && Within(Runs(ts), t.start) && t.start < t.end
    ensures Disjoint(Runs(ts + [t])) && Within(Runs(ts + [t]), t.end)
  {
    hide Runs, Disjoint, Joins, Within;
    RunsSnoc(ts, t);
    WithinMore(Runs(ts), t.start, t.end);
    if t.tag.Marked? {
      if ts != [] && Joins(ts[|ts| - 1], t) {
        JoinsMarked(ts[|ts| - 1], t);
        DisjointLonger(Runs(ts), t.end);
      } else {
        DisjointSnoc(Runs(ts), LabelledSpan(t.start, t.end, t.tag.category));
      }
    }
  }

  lemma {:induction false} JoinsMarked(t: Token, u: Token)
    requires Joins(t, u)
    ensures t.tag.Marked? && u.tag.Marked?
  {
  }

  lemma {:induction false} DisjointIsNonEmpty(spans: seq<LabelledSpan>)
    requires Disjoint(spans)
    ensures NonEmpty(spans) == spans
    decreases |spans|
  {
    if spans != [] {
      hide NonEmpty;
      var init, last := spans[..|spans| - 1], spans[|spans| - 1];
      assert spans == init + [last] && last.start < last.end;
      NonEmptySnoc(init, last);
      DisjointIsNonEmpty(init);
    }
  }

  /** Later tokens only add runs and lengthen the last one. */
  lemma {:induction false} RunsOnlyGrow(ts: seq<Token>, k: nat)
    requires Ordered(ts) && k < |ts| && ts[k].tag.Marked?
    ensures var now, was := Runs(ts), Runs(ts[..k + 1]);
            && 0 < |was| <= |now| && now[|was| - 1].start == was[|was| - 1].start
            && Holds(now[|was| - 1], ts[k]) && now[|was| - 1].category == ts[k].tag.category
    decreases |ts|
  {
    hide Runs, Disjoint, Ordered, Joins, Within;
    var init, t := ts[..|ts| - 1], ts[|ts| - 1];
    OrderedInit(ts);
    RunsSnoc(init, t);
    if k < |init| {
      assert init[..k + 1] == ts[..k + 1];
      RunsOnlyGrow(init, k);
      RunsAreDisjoint(init);
      LastWithin(Runs(init), init[|init| - 1].end);
    } else {
      assert ts[..k + 1] == ts;
      LastIsHeld(ts);
    }
  }

  lemma {:induction false} LastIsHeld(ts: seq<Token>)
    requires Ordered(ts) && ts != [] && ts[|ts| - 1].tag.Marked?
    ensures Runs(ts) != [] && Holds(Runs(ts)[|Runs(ts)| - 1], ts[|ts| - 1])
  {
    var init, t := ts[..|ts| - 1], ts[|ts| - 1];
    RunsAreDisjoint(init);
    if init != [] && Joins(init[|init| - 1], t) {
      var last := Runs(init)[|Runs(init)| - 1];
      assert last.start < last.end == init[|init| - 1].end <= t.start;
    }
  }

  predicate KeepsOut(spans: seq<LabelledSpan>, t: Token) { forall s | s in spans :: !Touches(s, t) }

  /** No run reaches into a token tagged as outside. */
  lemma {:induction false} OutsideIsUncovered(ts: seq<Token>, k: nat)
    requires Ordered(ts) && k < |ts| && ts[k].tag.Outside?
    ensures KeepsOut(Runs(ts), ts[k])
    decreases |ts|
  {
    hide Runs, Ordered, Disjoint, KeepsOut, Within, Joins;
    var init, t := ts[..|ts| - 1], ts[|ts| - 1];
    OrderedInit(ts);
    RunsSnoc(init, t);
    RunsAreDisjoint(init);
    if k < |init| {
      OutsideIsUncovered(init, k);
      NextRunKeepsOut(ts, k);
    } else if init != [] {
      WithinKeepsOut(Runs(init), init[|init| - 1].end, t);
    } else {
      WithinKeepsOut(Runs(init), 0, t) by { NothingWithin(0); }
    }
  }

  lemma {:induction false} WithinKeepsOut(spans: seq<LabelledSpan>, edge: nat, t: Token)
    requires Within(spans, edge) && edge <= t.start
    ensures KeepsOut(spans, t)
  {
  }

  /** A later token adds or lengthens a run, but not back to an outside token. */
  lemma {:induction false} NextRunKeepsOut(ts: seq<Token>, k: nat)
    requires Ordered(ts) && k < |ts| - 1 && ts[k].tag.Outside?
    requires KeepsOut(Runs(ts[..|ts| - 1]), ts[k])
    ensures KeepsOut(Runs(ts), ts[k])
  {
    hide Runs;
    var init, t := ts[..|ts| - 1], ts[|ts| - 1];
    assert ts == init + [t];
    RunsSnoc(init, t);
    if t.tag.Marked? && Joins(init[|init| - 1], t) {
      var last := Runs(init)[|Runs(init)| - 1];
      assert last in Runs(init) && last.end == init[|init| - 1].end;
      assert ts[k].end <= ts[|init| - 1].start < last.end;
    }
  }

  /** Two tokens in a row are in one run exactly when the second continues the first. */
  lemma {:induction false} SharedExactly(ts: seq<Token>, k: nat)
    requires Ordered(ts) && k + 1 < |ts| && ts[k].tag.Marked? && ts[k + 1].tag.Marked?
    ensures (exists s :: s in Runs(ts) && Holds(s, ts[k]) && Holds(s, ts[k + 1])) <==>
              && (ts[k].tag.prefix == "B" || ts[k].tag.prefix == "I")
              && (ts[k + 1].tag.prefix == "I" || ts[k + 1].tag.prefix == "E")
              && ts[k].tag.category == ts[k + 1].tag.category
  {
    hide Runs;
    RunsOnlyGrow(ts, k);
    RunsOnlyGrow(ts, k + 1);
    RunsAreDisjoint(ts);
    assert ts[..k + 2] == ts[..k + 1] + [ts[k + 1]];
    RunsSnoc(ts[..k + 1], ts[k + 1]);
    var spans, m := Runs(ts), |Runs(ts[..k + 1])|;
    if Joins(ts[k], ts[k + 1]) {
      assert spans[m - 1] in spans;
    } else {
      forall s | s in spans && Holds(s, ts[k]) ensures !Holds(s, ts[k + 1]) {
        var i :| 0 <= i < |spans| && spans[i] == s;
        assert spans[m].start == ts[k + 1].start;
        assert i < m;
      }
    }
  }

  /** Every run begins where some token of its category begins and ends where one ends. */
  lemma {:induction false} RunsComeFromTokens(ts: seq<Token>, s: LabelledSpan)
    requires s in Runs(ts)
    ensures exists t :: t in ts && t.tag.Marked? && t.tag.category == s.category && t.start == s.start
    ensures exists t :: t in ts && t.tag.Marked? && t.tag.category == s.category && t.end == s.end
  {
    assert ts != [];
    hide Runs;
    var init, t := ts[..|ts| - 1], ts[|ts| - 1];
    assert ts == init + [t];
    RunsSnoc(init, t);
    if s in Runs(init) {
      RunsComeFromTokens(init, s);
    } else if init != [] && Joins(init[|init| - 1], t) {
      RunsComeFromTokens(init, Runs(init)[|Runs(init)| - 1]);
    }
  }

  // ---------- what decoding promises ----------

  /** Tokens that cover text follow one another; the others may say anything. */
  predicate Monotone(tokens: seq<Token>) {
    forall i, j | 0 <= i < j < |tokens| ::
      tokens[i].start < tokens[i].end && tokens[j].start < tokens[j].end ==> tokens[i].end <= tokens[j].start
  }

  lemma {:induction false} HeardIsOrdered(tokens: seq<Token>)
    requires Monotone(tokens)
    ensures Ordered(HeardOnly(tokens))
    ensures forall t :: t in HeardOnly(tokens) <==> t in tokens && Heard(t)
  {
    if tokens != [] {
      var init, t := tokens[..|tokens| - 1], tokens[|tokens| - 1];
      assert tokens == init + [t];
      HeardIsOrdered(init);
      var before, now := HeardOnly(init), HeardOnly(tokens);
      if Heard(t) {
        forall i | 0 <= i < |before| ensures now[i].end <= t.start {
          assert before[i] in before;
          var j :| 0 <= j < |init| && init[j] == before[i];
        }
      }
    }
  }

  /** On monotone offsets the spans are non-empty, sorted and disjoint. */
  lemma {:induction false} DecodedInOrder(tokens: seq<Token>)
    requires Monotone(tokens)
    ensures Disjoint(Decoded(tokens)) && Decoded(tokens) == Runs(HeardOnly(tokens))
  {
    HeardIsOrdered(tokens);
    RunsAreDisjoint(HeardOnly(tokens));
    DisjointIsNonEmpty(Runs(HeardOnly(tokens)));
  }

  /** Each marked token lies in one span, of its own category, and no other span touches it. */
  lemma {:induction false} MarkedTokensAreCovered(tokens: seq<Token>, t: Token)
    requires Monotone(tokens) && t in tokens && t.start < t.end && t.tag.Marked?
    requires t.tag.prefix == "B" || t.tag.prefix == "I" || t.tag.prefix == "E" || t.tag.prefix == "S"
    ensures exists i :: && 0 <= i < |Decoded(tokens)|
                        && Holds(Decoded(tokens)[i], t) && Decoded(tokens)[i].category == t.tag.category
                        && forall j | 0 <= j < |Decoded(tokens)| && j != i :: !Touches(Decoded(tokens)[j], t)
  {
    hide Runs, NonEmpty, HeardOnly, Monotone, Ordered, Decoded;
    DecodedInOrder(tokens);
    HeardIsOrdered(tokens);
    var ts := HeardOnly(tokens);
    assert t in ts;
    var k: nat :| k < |ts| && ts[k] == t;
    RunsOnlyGrow(ts, k);
    var spans, i := Decoded(tokens), |Runs(ts[..k + 1])| - 1;
    forall j | 0 <= j < |spans| && j != i ensures !Touches(spans[j], t) {
      assert if j < i then spans[j].end <= spans[i].start else spans[i].end <= spans[j].start;
    }
  }

  /** No span reaches into a token tagged as outside that covers text. */
  lemma {:induction false} OutsideTokensAreUncovered(tokens: seq<Token>, t: Token, s: LabelledSpan)
    requires Monotone(tokens) && t in tokens && t.start < t.end && t.tag.Outside? && s in Decoded(tokens)
    ensures !Touches(s, t)
  {
    hide Runs, NonEmpty, HeardOnly, Monotone, Ordered, Decoded;
    DecodedInOrder(tokens);
    HeardIsOrdered(tokens);
    var ts := HeardOnly(tokens);
    var k :| 0 <= k < |ts| && ts[k] == t;
    OutsideIsUncovered(ts, k);
  }
}
