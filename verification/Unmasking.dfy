/** How unmasking behaves at a seam between two texts.

    `SubstituteOutsideSpans` edits a text; what matters for streaming is that an edit on either
    side of a seam neither misses a match across it nor makes a new one there. */
module Unmasking {
  import opened Text
  import opened TokenSpan
  import opened Detokenize
  import opened Keywords

  /** No occurrence of the needle begins in `a` and ends in `b`. */
  ghost predicate NoHitStraddles(w: Swap, a: string, b: string) {
    forall i, j | 0 <= i < |a| && 0 < j <= |b| :: !w.Matches(a[i..] + b[..j])
  }

  lemma {:induction false} NoHitStraddlesRest(w: Swap, a: string, b: string, n: nat)
    requires NoHitStraddles(w, a, b) && n <= |a|
    ensures NoHitStraddles(w, a[n..], b)
  {
    forall i, j | 0 <= i < |a[n..]| && 0 < j <= |b| ensures !w.Matches(a[n..][i..] + b[..j]) {
      assert a[n..][i..] == a[n + i..];
    }
  }

  lemma {:induction false} HitOfConcat(w: Swap, a: string, b: string)
    requires a != "" && NoHitStraddles(w, a, b)
    ensures w.Hit(a + b) == w.Hit(a)
    ensures w.Hit(a) ==> (a + b)[..|w.needle|] == a[..|w.needle|]
  {
    hide SameText;
    if |w.needle| <= |a| {
      assert (a + b)[..|w.needle|] == a[..|w.needle|];
    } else if w.Hit(a + b) {
      StraddlingHit(w, a, b);
    }
  }

  lemma {:induction false} StraddlingHit(w: Swap, a: string, b: string)
    requires |w.needle| > |a| && w.Hit(a + b)
    ensures 0 < |w.needle| - |a| <= |b| && w.Matches(a[0..] + b[..|w.needle| - |a|])
  {
    assert (a + b)[..|w.needle|] == a[0..] + b[..|w.needle| - |a|];
  }

  /** The text one step of the pass consumes, and what it writes for it. */
  function Consumed(w: Swap, t: string): (n: nat)
    requires t != ""
    ensures 0 < n <= |t|
  {
    if SpanLen(t) > 0 then SpanLen(t) else if w.Hit(t) then |w.needle| else 1
  }

  predicate Replaces(w: Swap, t: string) {
    SpanLen(t) == 0 && w.Hit(t)
  }

  function Written(w: Swap, t: string): string
    requires t != ""
  {
    if Replaces(w, t) then w.Shaped(t[..|w.needle|]) else t[..Consumed(w, t)]
  }

  /** The pass, one step at a time. */
  lemma {:induction false} OneStep(w: Swap, t: string)
    requires t != ""
    ensures SubstituteOutsideSpans(w, t) == Written(w, t) + SubstituteOutsideSpans(w, t[Consumed(w, t)..])
    ensures Replaces(w, t) ==> Consumed(w, t) == |w.needle| && w.Matches(t[..Consumed(w, t)])
  {
    hide SpanLen, SameText, Render;
    assert t[..1] == [t[0]];
  }

  /** Unmasking two texts one after the other is unmasking them together, when neither a span nor
      an occurrence of the alias straddles the seam. */
  lemma {:induction false} SubstituteConcat(w: Swap, a: string, b: string)
    requires NoSpanStraddles(a, b) && NoHitStraddles(w, a, b)
    ensures SubstituteOutsideSpans(w, a + b) == SubstituteOutsideSpans(w, a) + SubstituteOutsideSpans(w, b)
    decreases |a|
  {
    hide SpanLen, SameText, SubstituteOutsideSpans, Render;
    if a == "" {
      assert a + b == b;
      NothingToSubstitute(w, a);
    } else {
      SpanLenOfConcat(a, b);
      HitOfConcat(w, a, b);
      var n := Consumed(w, a);
      assert Consumed(w, a + b) == n;
      assert (a + b)[..n] == a[..n] && (a + b)[n..] == a[n..] + b;
      NoSpanStraddlesRest(a, b, n);
      NoHitStraddlesRest(w, a, b, n);
      SubstituteConcat(w, a[n..], b);
      OneStep(w, a);
      OneStep(w, a + b);
    }
  }

  // ---------- edits at the seam: spans ----------

  /** No end of the text begins a span that could run on. */
  ghost predicate OpensNothing(written: string) {
    forall i | 0 <= i < |written| :: !IsViable(written[i..])
  }

  /** No beginning of the text closes a span that began before it. */
  ghost predicate ClosesNothing(written: string) {
    forall p: Place, j | p.Inside() && 0 <= j <= |written| :: Walk(p, written[..j]) != Closed
  }

  /** A replacement that begins and ends no span beyond itself, and that a reader inside a span cannot
      tell from the alias, or that leads him nowhere: unmasking then never completes a span that was
      not there. */
  ghost predicate ReadsAlike(found: string, written: string) {
    && OpensNothing(written) && ClosesNothing(written)
    && forall p: Place | p.Inside() && Walk(p, written) != Dead :: Walk(p, written) == Walk(p, found)
  }

  lemma {:induction false} BracketFreeOpensNothing(written: string)
    requires NoBrackets(written)
    ensures OpensNothing(written) && ClosesNothing(written)
  {
    hide Walk, IsViable;
    forall i | 0 <= i < |written| ensures !IsViable(written[i..]) {
      if IsViable(written[i..]) {
        SpanShape(written[i..]);
      }
    }
    forall p: Place, j | p.Inside() && 0 <= j <= |written| ensures Walk(p, written[..j]) != Closed {
      NoBracketNoClose(p, written[..j]);
    }
  }

  lemma {:induction false} NoBracketNoClose(p: Place, s: string)
    requires p.Inside() && ']' !in s
    ensures Walk(p, s) != Closed
  {
    if Walk(p, s) == Closed {
      WalkInside(p, s);
    }
  }

  lemma {:induction false} WholeDoesNotClose(written: string, p: Place)
    requires ClosesNothing(written) && p.Inside()
    ensures Walk(p, written) != Closed
  {
    hide Walk;
    assert written[..|written|] == written;
  }

  /** A viable text whose front stands on its own is viable from the front. */
  lemma {:induction false} ViableFront(h: string, rest: string)
    requires h != "" && IsViable(h + rest)
    ensures IsViable(h)
  {
    hide Walk;
    WalkConcat(Before, h, rest);
    WalkDead(rest);
    WalkSane(Before, h);
    StartedIsNotBefore(h);
    assert rest == "" ==> h + rest == h;
  }

  lemma {:induction false} StartedIsNotBefore(h: string)
    requires h != ""
    ensures Walk(Before, h) != Before
  {
    NeverBackBefore(Step(Before, h[0]), h[1..]);
  }

  ghost predicate SpanNeutral(w: Swap) {
    forall found | w.Matches(found) :: ReadsAlike(found, w.Shaped(found))
  }

  /** From inside a span, an unmasked text that stays alive was read the same before unmasking. */
  lemma {:induction false} UnmaskedWalk(w: Swap, t: string, p: Place)
    requires SpanNeutral(w) && p.Inside() && Walk(p, SubstituteOutsideSpans(w, t)).Inside()
    ensures Walk(p, t) == Walk(p, SubstituteOutsideSpans(w, t))
    decreases |t|
  {
    hide SpanLen, SameText, SubstituteOutsideSpans, Render;
    if t == "" {
      NothingToSubstitute(w, t);
    } else {
      OneStep(w, t);
      var n := Consumed(w, t);
      var head, rest := Written(w, t), SubstituteOutsideSpans(w, t[n..]);
      WalkConcat(p, head, rest);
      WalkDead(rest);
      WalkSane(p, head);
      var q := Walk(p, head);
      if SpanLen(t) > 0 {
        SpanLenNeedsBracket(t);
        StepOverBracket(p, head);
        assert false;
      }
      NeverBackBefore(p, head);
      assert q.Inside();
      assert Walk(p, t[..n]) == q;
      assert t == t[..n] + t[n..];
      WalkConcat(p, t[..n], t[n..]);
      UnmaskedWalk(w, t[n..], q);
    }
  }

  lemma {:induction false} StepOverBracket(p: Place, s: string)
    requires p.Inside() && s != "" && s[0] == '['
    ensures Walk(p, s) == Dead
  {
    WalkDead(s[1..]);
  }

  lemma {:induction false} NeverBackBefore(p: Place, s: string)
    requires p != Before
    ensures Walk(p, s) != Before
  {
    if s != "" {
      WalkInsideNeverBefore(p, s);
    }
  }

  /** A viable tail of an unmasked text comes from a tail of the text that reads the same. */
  lemma {:induction false} ViableTailOrigin(w: Swap, a: string, x: string) returns (x': string)
    requires SpanNeutral(w) && IsSuffix(x, SubstituteOutsideSpans(w, a)) && IsViable(x)
    ensures x' != "" && IsSuffix(x', a) && Walk(Before, x') == Walk(Before, x)
    decreases |a|
  {
    hide SpanLen, SameText, SubstituteOutsideSpans, Render;
    SpanShape(x);
    if a == "" {
      NothingToSubstitute(w, a);
      assert false;
    }
    OneStep(w, a);
    var n := Consumed(w, a);
    var head, rest := Written(w, a), SubstituteOutsideSpans(w, a[n..]);
    if |x| <= |rest| {
      TailOfConcat(head, rest, x);
      x' := ViableTailOrigin(w, a[n..], x);
      TailOfTail(a, n, x');
    } else {
      var m := |x| - |rest|;
      TailSplits(head, rest, x);
      var h := head[|head| - m..];
      assert Replaces(w, a) ==> ReadsAlike(a[..n], head);
      assert h[0] == '[' == head[|head| - m];
      if Replaces(w, a) {
        ViableFront(h, rest);
        assert false;
      } else if SpanLen(a) > 0 {
        SpanShape(head);
        assert h == head;
        WalkConcat(Before, h, rest);
        WalkDead(rest);
        assert false;
      } else {
        assert h == head == a[..1] == ['['];
        assert h[1..] == "";
        WalkConcat(Before, h, rest);
        UnmaskedWalk(w, a[1..], CategoryStart);
        x' := a;
        assert a == h + a[1..];
        WalkConcat(Before, h, a[1..]);
      }
    }
  }

  lemma {:induction false} TailOfConcat(head: string, rest: string, x: string)
    requires IsSuffix(x, head + rest) && |x| <= |rest|
    ensures IsSuffix(x, rest)
  {
    assert (head + rest)[|head + rest| - |x|..] == rest[|rest| - |x|..];
  }

  lemma {:induction false} TailSplits(head: string, rest: string, x: string)
    requires IsSuffix(x, head + rest) && |x| > |rest|
    ensures |x| - |rest| <= |head|
    ensures x == head[|head| - (|x| - |rest|)..] + rest
  {
  }

  lemma {:induction false} TailOfTail(a: string, n: nat, x: string)
    requires n <= |a| && IsSuffix(x, a[n..])
    ensures IsSuffix(x, a)
  {
    assert a[|a| - |x|..] == a[n..][|a[n..]| - |x|..];
  }

  /** Text that closes a span at the front of an unmasked text comes from text that closes it. */
  lemma {:induction false} ClosingHeadOrigin(w: Swap, b: string, q: Place, j: nat) returns (j': nat)
    requires SpanNeutral(w) && q.Inside()
    requires j <= |SubstituteOutsideSpans(w, b)| && Walk(q, SubstituteOutsideSpans(w, b)[..j]) == Closed
    ensures 0 < j' <= |b| && Walk(q, b[..j']) == Closed
    decreases |b|
  {
    hide SpanLen, SameText, SubstituteOutsideSpans, Render;
    if b == "" {
      NothingToSubstitute(w, b);
      assert false;
    }
    OneStep(w, b);
    var n := Consumed(w, b);
    var head, rest := Written(w, b), SubstituteOutsideSpans(w, b[n..]);
    var y := (head + rest)[..j];
    if SpanLen(b) > 0 {
      SpanLenNeedsBracket(b);
      assert y[0] == b[0];
      StepOverBracket(q, y);
      assert false;
    }
    assert Replaces(w, b) ==> ReadsAlike(b[..n], head);
    if j <= |head| {
      assert y == head[..j];
      WalkInside(q, y);
      assert y[j - 1] == ']' == head[j - 1];
      if Replaces(w, b) {
        assert false;
      }
      j' := j;
    } else {
      assert y == head + rest[..j - |head|];
      WalkConcat(q, head, rest[..j - |head|]);
      WalkDead(rest[..j - |head|]);
      WalkSane(q, head);
      NeverBackBefore(q, head);
      var m := ClosingHeadOrigin(w, b[n..], Walk(q, head), j - |head|);
      assert Walk(q, b[..n]) == Walk(q, head);
      j' := n + m;
      assert b[..j'] == b[..n] + b[n..][..m];
      WalkConcat(q, b[..n], b[n..][..m]);
    }
  }

  /** Unmasking on either side of a seam makes no span across it. */
  lemma {:induction false} NoNewSpanAtSeam(w: Swap, a: string, b: string)
    requires SpanNeutral(w) && NoSpanStraddles(a, b)
    ensures NoSpanStraddles(SubstituteOutsideSpans(w, a), SubstituteOutsideSpans(w, b))
  {
    hide SubstituteOutsideSpans;
    var ua, ub := SubstituteOutsideSpans(w, a), SubstituteOutsideSpans(w, b);
    forall i, j | 0 <= i < |ua| && 0 < j <= |ub| ensures !IsSpan(ua[i..] + ub[..j]) {
      if IsSpan(ua[i..] + ub[..j]) {
        SpanAtSeamOrigin(w, a, b, i, j);
      }
    }
  }

  lemma {:induction false} SpanAtSeamOrigin(w: Swap, a: string, b: string, i: nat, j: nat)
    requires SpanNeutral(w)
    requires i < |SubstituteOutsideSpans(w, a)| && 0 < j <= |SubstituteOutsideSpans(w, b)|
    requires IsSpan(SubstituteOutsideSpans(w, a)[i..] + SubstituteOutsideSpans(w, b)[..j])
    ensures !NoSpanStraddles(a, b)
  {
    hide SubstituteOutsideSpans;
    var x, y := SubstituteOutsideSpans(w, a)[i..], SubstituteOutsideSpans(w, b)[..j];
    SpanPrefixesAreViable(x + y, |x|);
    assert (x + y)[..|x|] == x;
    WalkConcat(Before, x, y);
    var x' := ViableTailOrigin(w, a, x);
    var j' := ClosingHeadOrigin(w, b, Walk(Before, x), j);
    var i' := |a| - |x'|;
    WalkConcat(Before, x', b[..j']);
    assert IsSpan(a[i'..] + b[..j']);
  }

  // ---------- edits at the seam: other aliases ----------

  /** What `w` writes cannot take part in an occurrence of the needle of `v` that crosses its
      border: not with its end, not with its beginning, and not as a whole. */
  ghost predicate Detached(v: Swap, w: Swap) {
    forall found | w.Matches(found) :: Apart(v, w.Shaped(found))
  }

  ghost predicate Apart(v: Swap, written: string) {
    && (forall n | 0 < n < |v.needle| && n <= |written| ::
          !SameText(written[|written| - n..], v.needle[..n], v.caseSensitive))
    && (forall n | 0 < n < |v.needle| && n <= |written| ::
          !SameText(written[..n], v.needle[|v.needle| - n..], v.caseSensitive))
    && (forall n, m | 0 <= n && m == n + |written| <= |v.needle| ::
          !SameText(written, v.needle[n..m], v.caseSensitive))
  }

  predicate Touched(w: Swap, t: string)
    decreases |t|
  {
    t != "" && (Replaces(w, t) || Touched(w, t[Consumed(w, t)..]))
  }

  lemma {:induction false} Untouched(w: Swap, t: string)
    requires !Touched(w, t)
    ensures SubstituteOutsideSpans(w, t) == t
    decreases |t|
  {
    hide SpanLen, SameText, SubstituteOutsideSpans, Render;
    if t == "" {
      NothingToSubstitute(w, t);
    } else {
      OneStep(w, t);
      var n := Consumed(w, t);
      Untouched(w, t[n..]);
      assert t == t[..n] + t[n..];
    }
  }

  lemma {:induction false} TouchedHoldsReplacement(w: Swap, t: string) returns (found: string, i: nat)
    requires Touched(w, t)
    ensures w.Matches(found) && i + |w.Shaped(found)| <= |SubstituteOutsideSpans(w, t)|
    ensures SubstituteOutsideSpans(w, t)[i..i + |w.Shaped(found)|] == w.Shaped(found)
    decreases |t|
  {
    hide SpanLen, SameText, SubstituteOutsideSpans, Render;
    OneStep(w, t);
    var n := Consumed(w, t);
    var head := Written(w, t);
    if Replaces(w, t) {
      found, i := t[..n], 0;
    } else {
      found, i := TouchedHoldsReplacement(w, t[n..]);
      i := i + |head|;
    }
  }

  /** Text apart from a needle does not fit inside an occurrence of it. */
  lemma {:induction false} NoReplacementInside(v: Swap, written: string, x: string, at: nat, off: nat)
    requires at + |x| <= |v.needle| && SameText(x, v.needle[at..at + |x|], v.caseSensitive)
    requires off + |written| <= |x| && x[off..off + |written|] == written
    ensures !Apart(v, written)
  {
    SameTextSlice(x, v.needle[at..at + |x|], v.caseSensitive, off, off + |written|);
    assert v.needle[at..at + |x|][off..off + |written|] == v.needle[at + off..at + off + |written|];
  }

  lemma {:induction false} NotBegunBy(v: Swap, written: string, x: string, m: nat)
    requires 0 < m < |v.needle| && m <= |x| <= |v.needle| && SameText(x, v.needle[..|x|], v.caseSensitive)
    requires m <= |written| && written[|written| - m..] == x[..m]
    ensures !Apart(v, written)
  {
    hide SameText;
    SameTextSlice(x, v.needle[..|x|], v.caseSensitive, 0, m);
    assert x[0..m] == x[..m] && v.needle[..|x|][0..m] == v.needle[..m];
  }

  lemma {:induction false} NotEndedBy(v: Swap, written: string, y: string)
    requires 0 < |y| < |v.needle| && SameText(y, v.needle[|v.needle| - |y|..], v.caseSensitive)
    requires |y| <= |written| && written[..|y|] == y
    ensures !Apart(v, written)
  {
    hide SameText;
  }

  /** A tail of an unmasked text that begins the needle of `v` is a tail of the text itself. */
  lemma {:induction false} TailOrigin(v: Swap, w: Swap, a: string, x: string)
    requires Detached(v, w) && IsSuffix(x, SubstituteOutsideSpans(w, a))
    requires 0 < |x| < |v.needle| && SameText(x, v.needle[..|x|], v.caseSensitive)
    ensures IsSuffix(x, a)
    decreases |a|
  {
    hide SpanLen, SameText, SubstituteOutsideSpans, Render;
    if a == "" {
      NothingToSubstitute(w, a);
      assert false;
    }
    OneStep(w, a);
    var n := Consumed(w, a);
    var head, rest := Written(w, a), SubstituteOutsideSpans(w, a[n..]);
    assert Replaces(w, a) ==> Apart(v, head);
    if |x| <= |rest| {
      TailOfConcat(head, rest, x);
      TailOrigin(v, w, a[n..], x);
      TailOfTail(a, n, x);
    } else {
      var m := |x| - |rest|;
      TailSplits(head, rest, x);
      assert v.needle[0..|x|] == v.needle[..|x|];
      if Touched(w, a[n..]) {
        var found, i := TouchedHoldsReplacement(w, a[n..]);
        assert x[m + i..m + i + |w.Shaped(found)|] == rest[i..i + |w.Shaped(found)|];
        NoReplacementInside(v, w.Shaped(found), x, 0, m + i);
      } else {
        Untouched(w, a[n..]);
        if Replaces(w, a) {
          NotBegunBy(v, head, x, m);
        } else {
          assert a == head + a[n..];
          assert a[|a| - |x|..] == x;
        }
      }
    }
  }

  /** A head of an unmasked text that ends the needle of `v` is a head of the text itself. */
  lemma {:induction false} HeadOrigin(v: Swap, w: Swap, b: string, y: string)
    requires Detached(v, w) && y <= SubstituteOutsideSpans(w, b)
    requires 0 < |y| < |v.needle| && SameText(y, v.needle[|v.needle| - |y|..], v.caseSensitive)
    ensures y <= b
    decreases |b|
  {
    hide SpanLen, SameText, SubstituteOutsideSpans, Render;
    if b == "" {
      NothingToSubstitute(w, b);
      assert false;
    }
    OneStep(w, b);
    var n := Consumed(w, b);
    var head, rest := Written(w, b), SubstituteOutsideSpans(w, b[n..]);
    var at := |v.needle| - |y|;
    assert v.needle[at..at + |y|] == v.needle[at..];
    assert Replaces(w, b) ==> Apart(v, head);
    if Replaces(w, b) {
      if |y| <= |head| {
        NotEndedBy(v, head, y);
      } else {
        assert y[0..0 + |head|] == head;
        NoReplacementInside(v, head, y, at, 0);
      }
    } else if |y| <= |head| {
      assert y == head[..|y|] == b[..|y|];
    } else {
      var y' := y[|head|..];
      assert y == head + y' && y' <= rest;
      SameTextSlice(y, v.needle[at..], v.caseSensitive, |head|, |y|);
      assert v.needle[at..][|head|..|y|] == v.needle[|v.needle| - |y'|..];
      assert y[|head|..|y|] == y';
      HeadOrigin(v, w, b[n..], y');
      assert b == head + b[n..];
    }
  }

  /** Unmasking with `w` on either side of a seam makes no occurrence of `v` across it. */
  lemma {:induction false} NoNewHitAtSeam(v: Swap, w: Swap, a: string, b: string)
    requires Detached(v, w) && NoHitStraddles(v, a, b)
    ensures NoHitStraddles(v, SubstituteOutsideSpans(w, a), SubstituteOutsideSpans(w, b))
  {
    hide SubstituteOutsideSpans, SameText;
    var ua, ub := SubstituteOutsideSpans(w, a), SubstituteOutsideSpans(w, b);
    forall i, j | 0 <= i < |ua| && 0 < j <= |ub| ensures !v.Matches(ua[i..] + ub[..j]) {
      if v.Matches(ua[i..] + ub[..j]) {
        HitAtSeamOrigin(v, w, a, b, i, j);
      }
    }
  }

  lemma {:induction false} MatchSize(v: Swap, x: string, y: string)
    requires v.Matches(x + y)
    ensures |x| + |y| == |v.needle|
    ensures SameText(x, v.needle[..|x|], v.caseSensitive)
    ensures SameText(y, v.needle[|v.needle| - |y|..], v.caseSensitive)
  {
    SameTextSlice(x + y, v.needle, v.caseSensitive, 0, |x|);
    SameTextSlice(x + y, v.needle, v.caseSensitive, |x|, |x + y|);
    assert (x + y)[0..|x|] == x && (x + y)[|x|..|x + y|] == y;
  }

  lemma {:induction false} HitAtSeamOrigin(v: Swap, w: Swap, a: string, b: string, i: nat, j: nat)
    requires Detached(v, w)
    requires i < |SubstituteOutsideSpans(w, a)| && 0 < j <= |SubstituteOutsideSpans(w, b)|
    requires v.Matches(SubstituteOutsideSpans(w, a)[i..] + SubstituteOutsideSpans(w, b)[..j])
    ensures !NoHitStraddles(v, a, b)
  {
    hide SubstituteOutsideSpans, SameText;
    var x, y := SubstituteOutsideSpans(w, a)[i..], SubstituteOutsideSpans(w, b)[..j];
    MatchSize(v, x, y);
    TailOrigin(v, w, a, x);
    HeadOrigin(v, w, b, y);
    var i' := |a| - |x|;
    assert a[i'..] + b[..j] == x + y;
    assert v.Matches(a[i'..] + b[..j]);
  }
}
