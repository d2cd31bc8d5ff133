/** One keyword, exactly: the stream may be cut where the proxy cuts it if and only if no proper tail of
    the alias begins it and what is restored completes no span that was not there. */
module Exactness {
  import opened Text
  import opened TokenSpan
  import opened SpanWalker
  import opened Sealing
  import opened Detokenize
  import opened Keywords
  import opened Unmasking
  import opened StreamingCut
  import opened CutLimits
  import RoundTrip

  predicate AliasFree(kw: Keyword, t: string) { RoundTrip.Absent(kw, t) }

  /** The alias is no part of the word TOKEN, so that writing one does not unmask it. */
  predicate MarkerFree(kw: Keyword) { AliasFree(kw, MARKER) }

  // ---------- texts without the alias ----------

  lemma {:induction false} AliasFreePart(kw: Keyword, t: string, a: nat, b: nat)
    requires a <= b <= |t| && AliasFree(kw, t)
    ensures AliasFree(kw, t[a..b])
  {
    RoundTrip.AbsentPart(kw, t, a, b);
  }

  lemma {:induction false} ShortIsAliasFree(kw: Keyword, t: string)
    requires kw.Valid() && |t| < 3
    ensures AliasFree(kw, t)
  {
  }

  /** Two texts around a character that is in no alias. */
  lemma {:induction false} AliasFreeJoin(kw: Keyword, a: string, c: char, b: string)
    requires kw.Valid() && AliasFree(kw, a) && AliasFree(kw, b) && !IsLetter(c) && !IsDigit(c)
    ensures AliasFree(kw, a + [c] + b)
  {
    hide SameText;
    var t, n := a + [c] + b, |kw.alias|;
    assert t[0..|a|] == a && t[|a| + 1..|t|] == b;
    forall i | 0 <= i <= |t| ensures !OccursAt(t, i, kw.alias, kw.caseSensitive) {
      if OccursAt(t, i, kw.alias, kw.caseSensitive) {
        OccurrenceFits(t, i, kw.alias, kw.caseSensitive);
        if i + n <= |a| {
          RoundTrip.OccursInPart(t, 0, |a|, i, kw.alias, kw.caseSensitive);
        } else if i > |a| {
          RoundTrip.OccursInPart(t, |a| + 1, |t|, i - |a| - 1, kw.alias, kw.caseSensitive);
        } else {
          var j := |a| - i;
          NoAliasChar(kw, c, j);
          RoundTrip.OccurrenceChar(t, i, kw.alias, kw.caseSensitive, j);
        }
      }
    }
  }

  lemma {:induction false} NoAliasChar(kw: Keyword, c: char, j: nat)
    requires kw.Valid() && j < |kw.alias| && !IsLetter(c) && !IsDigit(c)
    ensures !SameChar(c, kw.alias[j], kw.caseSensitive)
  {
  }

  function Run(m: nat): string { seq(m, i => 'A') }

  lemma {:induction false} RunIsAliasFree(kw: Keyword, m: nat)
    requires kw.Valid() && NoOverlap(kw, kw)
    ensures AliasFree(kw, Run(m))
  {
    hide NoOverlap, OccursAt;
    forall i | 0 <= i <= m ensures !OccursAt(Run(m), i, kw.alias, kw.caseSensitive) {
      if OccursAt(Run(m), i, kw.alias, kw.caseSensitive) {
        RunOverlaps(kw, m, i);
      }
    }
  }

  lemma {:induction false} RunOverlaps(kw: Keyword, m: nat, i: nat)
    requires kw.Valid() && OccursAt(Run(m), i, kw.alias, kw.caseSensitive)
    ensures !NoOverlap(kw, kw)
  {
    var n := |kw.alias|;
    RoundTrip.OccurrenceChar(Run(m), i, kw.alias, kw.caseSensitive, 0);
    RoundTrip.OccurrenceChar(Run(m), i, kw.alias, kw.caseSensitive, n - 1);
    assert SameText(kw.alias[n - 1..], kw.alias[..1], kw.caseSensitive);
  }

  lemma {:induction false} MarkerPart(kw: Keyword, i: nat, j: nat)
    requires MarkerFree(kw) && i <= j <= |MARKER|
    ensures AliasFree(kw, MARKER[i..j])
  {
    AliasFreePart(kw, MARKER, i, j);
  }

  // ---------- how a reader gets inside a span, and out of it ----------

  /** A text that leads inside a span, as long as one likes. */
  function Opening(p: Place, m: nat): string
    requires p.Inside()
  {
    match p
    case InMarker(k) => "[" + Run(m) + ":" + MARKER[..k]
    case PayloadStart => "[" + Run(m) + ":" + MARKER
    case InPayload => "[" + Run(m) + ":" + "TOKEN" + "_" + "a"
    case _ => "[" + Run(m)
  }

  lemma {:induction false} RunWalk(m: nat)
    requires m > 0
    ensures Walk(Before, "[" + Run(m)) == InCategory
  {
    assert ("[" + Run(m))[1..] == Run(m) && Run(m)[1..] == Run(m - 1);
    CategoryRun(Run(m - 1));
    assert Walk(CategoryStart, Run(m)) == Walk(InCategory, Run(m - 1));
  }

  lemma {:induction false} MarkerWalk(k: nat)
    requires k < |MARKER|
    ensures Walk(InMarker(0), MARKER[..k]) == InMarker(k)
  {
    if k > 0 {
      MarkerWalk(k - 1);
      assert MARKER[..k] == MARKER[..k - 1] + [MARKER[k - 1]];
      WalkConcat(InMarker(0), MARKER[..k - 1], [MARKER[k - 1]]);
      assert [MARKER[k - 1]][1..] == "";
    } else {
      assert MARKER[..0] == "";
    }
  }

  lemma {:induction false} OpeningLeads(p: Place, m: nat)
    requires p.Inside() && p != CategoryStart && m > 0
    ensures Walk(Before, Opening(p, m)) == p
  {
    hide Walk;
    RunWalk(m);
    ColonStep();
    match p {
      case InMarker(k) =>
        MarkerWalk(k);
        WalkConcat(Before, "[" + Run(m), ":");
        WalkConcat(Before, "[" + Run(m) + ":", MARKER[..k]);
      case PayloadStart =>
        MarkerRun();
        WalkConcat(Before, "[" + Run(m), ":" + MARKER);
        assert "[" + Run(m) + (":" + MARKER) == Opening(p, m);
      case InPayload =>
        MarkerRun();
        PayloadStep();
        WalkConcat(Before, "[" + Run(m), ":" + MARKER);
        WalkConcat(Before, "[" + Run(m) + (":" + MARKER), "a");
        assert "[" + Run(m) + (":" + MARKER) + "a" == Opening(p, m);
      case _ =>
    }
  }

  lemma {:induction false} ColonStep()
    ensures Walk(InCategory, ":") == InMarker(0)
  {
    assert ":"[1..] == "";
  }

  lemma {:induction false} PayloadStep()
    ensures Walk(PayloadStart, "a") == InPayload && Walk(InPayload, "a") == InPayload && Walk(InPayload, "]") == Closed
    ensures Walk(InCategory, "a") == Dead
  {
    assert "a"[1..] == "" && "]"[1..] == "";
  }

  lemma {:induction false} OpeningIsAliasFree(kw: Keyword, p: Place, m: nat)
    requires kw.Valid() && NoOverlap(kw, kw) && MarkerFree(kw) && p.Inside()
    ensures AliasFree(kw, Opening(p, m))
  {
    hide AliasFree, NoOverlap;
    ShortIsAliasFree(kw, "");
    ShortIsAliasFree(kw, "a");
    RunIsAliasFree(kw, m);
    AliasFreeJoin(kw, "", '[', Run(m));
    var begun := "[" + Run(m);
    assert "" + ['['] + Run(m) == begun;
    match p {
      case InMarker(k) =>
        MarkerPart(kw, 0, k);
        assert MARKER[0..k] == MARKER[..k];
        AliasFreeJoin(kw, begun, ':', MARKER[..k]);
      case PayloadStart =>
        MarkerPart(kw, 0, 6);
        assert MARKER[0..6] == MARKER;
        AliasFreeJoin(kw, begun, ':', MARKER);
      case InPayload =>
        MarkerPart(kw, 0, 5);
        assert MARKER[0..5] == "TOKEN";
        AliasFreeJoin(kw, begun, ':', "TOKEN");
        AliasFreeJoin(kw, begun + ":" + "TOKEN", '_', "a");
      case _ =>
    }
  }

  lemma {:induction false} OpeningShape(p: Place, m: nat)
    requires p.Inside()
    ensures |Opening(p, m)| > m && Opening(p, m)[0] == '[' && ']' !in Opening(p, m) && '[' !in Opening(p, m)[1..]
  {
    assert ']' !in MARKER && '[' !in MARKER && ']' !in "TOKEN" && '[' !in "TOKEN";
  }

  /** What leads from inside a span to its last character but one. */
  function Ending(q: Place): string
    requires q.Inside()
  {
    match q
    case CategoryStart => "A" + ":" + "TOKEN" + "_" + "a"
    case InCategory => ":" + "TOKEN" + "_" + "a"
    case InMarker(k) => MARKER[k..5] + "_" + "a"
    case _ => "a"
  }

  lemma {:induction false} EndingLeads(q: Place)
    requires q.Inside()
    ensures Walk(q, Ending(q)) == InPayload && Walk(q, Ending(q) + "]") == Closed
  {
    hide Walk;
    MarkerRun();
    PayloadStep();
    match q {
      case CategoryStart =>
        FirstCategoryChar();
        WalkConcat(CategoryStart, "A", ":" + MARKER);
        WalkConcat(CategoryStart, "A" + (":" + MARKER), "a");
        assert "A" + (":" + MARKER) + "a" == Ending(q);
      case InCategory =>
        WalkConcat(InCategory, ":" + MARKER, "a");
        assert ":" + MARKER + "a" == Ending(q);
      case InMarker(k) =>
        MarkerTail(k);
        assert MARKER[k..] + "a" == Ending(q);
        WalkConcat(q, MARKER[k..], "a");
      case _ =>
    }
    WalkConcat(q, Ending(q), "]");
  }

  lemma {:induction false} FirstCategoryChar()
    ensures Walk(CategoryStart, "A") == InCategory
  {
    assert "A"[1..] == "";
  }

  lemma {:induction false} EndingIsAliasFree(kw: Keyword, q: Place)
    requires kw.Valid() && MarkerFree(kw) && q.Inside()
    ensures AliasFree(kw, Ending(q) + "]") && '[' !in Ending(q) + "]" && ']' !in Ending(q)
  {
    hide AliasFree;
    ShortIsAliasFree(kw, "");
    ShortIsAliasFree(kw, "a");
    ShortIsAliasFree(kw, "A");
    MarkerPart(kw, 0, 5);
    assert MARKER[0..5] == "TOKEN";
    AliasFreeJoin(kw, "TOKEN", '_', "a");
    AliasFreeJoin(kw, "", ':', "TOKEN" + "_" + "a");
    AliasFreeJoin(kw, "A", ':', "TOKEN" + "_" + "a");
    match q {
      case InMarker(k) =>
        MarkerPart(kw, k, 5);
        AliasFreeJoin(kw, MARKER[k..5], '_', "a");
      case CategoryStart =>
        assert "A" + ":" + ("TOKEN" + "_" + "a") == Ending(q);
      case InCategory =>
        assert "" + ":" + ("TOKEN" + "_" + "a") == Ending(q);
      case _ =>
    }
    AliasFreeJoin(kw, Ending(q), ']', "");
    assert Ending(q) + "]" + "" == Ending(q) + "]";
    assert '[' !in MARKER && ']' !in MARKER;
  }

  // ---------- unmasking around one occurrence ----------

  lemma {:induction false} AliasFreeUntouched(kw: Keyword, r: Rendering, t: string)
    requires kw.Valid() && AliasFree(kw, t) && forall i | 0 <= i < |t| :: SpanLen(t[i..]) == 0
    ensures SubstituteOutsideSpans(kw.Unmasking(r), t) == t
    decreases |t|
  {
    hide SpanLen, OccursAt, SubstituteOutsideSpans, Render;
    var w := kw.Unmasking(r);
    if t == "" {
      NothingToSubstitute(w, t);
    } else {
      assert t[0..] == t;
      HitIsOccurrence(w, t, 0);
      OneStep(w, t);
      assert t[1..|t|] == t[1..];
      AliasFreePart(kw, t, 1, |t|);
      forall i | 0 <= i < |t[1..]| ensures SpanLen(t[1..][i..]) == 0 {
        assert t[1..][i..] == t[i + 1..];
      }
      AliasFreeUntouched(kw, r, t[1..]);
      assert t == t[..1] + t[1..];
    }
  }

  lemma {:induction false} NoCloseNoSpan(t: string)
    requires ']' !in t
    ensures forall i | 0 <= i < |t| :: SpanLen(t[i..]) == 0
  {
    hide SpanLen;
    forall i | 0 <= i < |t| ensures SpanLen(t[i..]) == 0 {
      if SpanLen(t[i..]) > 0 {
        SpanHasClose(t[i..]);
      }
    }
  }

  lemma {:induction false} SpanHasClose(t: string)
    requires SpanLen(t) > 0
    ensures ']' in t
  {
    hide IsSpan;
    var s := t[..SpanLen(t)];
    SpanShape(s);
    assert s[|s| - 1] == t[|s| - 1];
  }

  lemma {:induction false} NoOpenNoSpan(t: string)
    requires '[' !in t
    ensures forall i | 0 <= i < |t| :: SpanLen(t[i..]) == 0
  {
    forall i | 0 <= i < |t| ensures SpanLen(t[i..]) == 0 {
      NoBracketNoSpan(t[i..]);
    }
  }

  /** An occurrence that begins before a known one ends before it, or the alias overlaps itself. */
  lemma {:induction false} EarlierHit(kw: Keyword, u: string, found: string, rest: string, i: nat)
    requires kw.Valid() && SameText(found, kw.alias, kw.caseSensitive) && i < |u|
    requires OccursAt(u + found + rest, i, kw.alias, kw.caseSensitive)
    ensures OccursAt(u, i, kw.alias, kw.caseSensitive) || !NoOverlap(kw, kw)
  {
    hide SameText, NoOverlap;
    var t, n, cs := u + found + rest, |kw.alias|, kw.caseSensitive;
    SameSize(found, kw.alias, cs);
    OccurrenceFits(t, i, kw.alias, cs);
    if i + n <= |u| {
      assert t[0..|u|] == u;
      RoundTrip.OccursInPart(t, 0, |u|, i, kw.alias, cs);
    } else {
      var m := i + n - |u|;
      var y := found[..m];
      assert t[|u|..|u| + n] == found && t[i..i + n][n - m..n] == t[|u|..|u| + m];
      assert t[i..i + n][n - m..n] == y && kw.alias[n - m..n] == kw.alias[n - m..];
      SameTextSlice(t[i..i + n], kw.alias, cs, n - m, n);
      RoundTrip.AliasBorder(kw, found, y);
    }
  }

  lemma {:induction false} NoEarlierHit(kw: Keyword, u: string, found: string, rest: string, i: nat)
    requires kw.Valid() && NoOverlap(kw, kw) && AliasFree(kw, u) && SameText(found, kw.alias, kw.caseSensitive) && i < |u|
    ensures !OccursAt(u + found + rest, i, kw.alias, kw.caseSensitive)
  {
    hide SameText, NoOverlap, OccursAt;
    if OccursAt(u + found + rest, i, kw.alias, kw.caseSensitive) {
      EarlierHit(kw, u, found, rest, i);
    }
  }

  lemma {:induction false} UnmaskAround(kw: Keyword, r: Rendering, u: string, found: string, post: string)
    requires kw.Valid() && NoOverlap(kw, kw) && AliasFree(kw, u) && AliasFree(kw, post) && '[' !in post
    requires SameText(found, kw.alias, kw.caseSensitive)
    requires forall i | 0 <= i < |u| :: SpanLen((u + found + post)[i..]) == 0
    ensures SubstituteOutsideSpans(kw.Unmasking(r), u + found + post) == u + kw.Unmasking(r).Shaped(found) + post
    decreases |u|
  {
    hide SpanLen, OccursAt, SubstituteOutsideSpans, Render, SameText, NoOverlap, Swap.Shaped, AliasFree;
    var w, t := kw.Unmasking(r), u + found + post;
    assert t[0..] == t;
    FoundIsNoSpan(kw, found, post);
    HitIsOccurrence(w, t, 0);
    OneStep(w, t);
    if u == "" {
      SameSize(found, kw.alias, kw.caseSensitive);
      assert t == found + post && t[..|found|] == found && t[|found|..] == post;
      NoOpenNoSpan(post);
      AliasFreeUntouched(kw, r, post);
      assert "" + w.Shaped(found) + post == w.Shaped(found) + post;
    } else {
      NoEarlierHit(kw, u, found, post, 0);
      var rest := u[1..] + found + post;
      assert t[1..] == rest && t[..1] == u[..1] && u[1..|u|] == u[1..];
      AliasFreePart(kw, u, 1, |u|);
      forall i | 0 <= i < |u[1..]| ensures SpanLen(rest[i..]) == 0 {
        assert rest[i..] == t[i + 1..];
      }
      UnmaskAround(kw, r, u[1..], found, post);
      assert u[..1] + (u[1..] + w.Shaped(found) + post) == u + w.Shaped(found) + post;
    }
  }

  lemma {:induction false} FoundIsNoSpan(kw: Keyword, found: string, post: string)
    requires kw.Valid() && SameText(found, kw.alias, kw.caseSensitive)
    ensures found != "" && SpanLen(found + post) == 0 && '[' !in found && ']' !in found
    ensures forall i | 0 <= i < |found| :: IsLetter(found[i]) || IsDigit(found[i])
  {
    forall i | 0 <= i < |found| ensures IsLetter(found[i]) || IsDigit(found[i]) {
      assert SameChar(found[i], kw.alias[i], kw.caseSensitive);
    }
    assert (found + post)[0] == found[0];
    NoFrontBracketNoSpan(found + post);
  }

  // ---------- where such texts are cut ----------

  /** A cut that counts. */
  lemma {:induction false} CutShows(kw: Keyword, r: Rendering, text: string, more: string)
    requires var w, safe := kw.Unmasking(r), SafeLen(text, [kw]);
             ErasedLen(r, SubstituteOutsideSpans(w, text + more))
             < ErasedLen(r, SubstituteOutsideSpans(w, text[..safe])) + ErasedLen(r, SubstituteOutsideSpans(w, text[safe..] + more))
    ensures !CutHolds(Eraser(), [kw], r, text, more)
  {
    hide SafeLen, SubstituteOutsideSpans, DetokenizeFrom, Unmask;
    var w, safe := kw.Unmasking(r), SafeLen(text, [kw]);
    ErasedIs(kw, r, text + more);
    ErasedIs(kw, r, text[..safe]);
    ErasedIs(kw, r, text[safe..] + more);
  }

  lemma {:induction false} ErasedIs(kw: Keyword, r: Rendering, t: string)
    ensures Rewritten(Eraser(), [kw], r, t).Some?
    ensures |Rewritten(Eraser(), [kw], r, t).value| == ErasedLen(r, SubstituteOutsideSpans(kw.Unmasking(r), t))
  {
    hide SubstituteOutsideSpans, DetokenizeFrom, Unmask;
    OneKeyword(kw, r, t);
    RewrittenIs(Eraser(), [kw], r, t);
    ErasureSucceeds(r, SubstituteOutsideSpans(kw.Unmasking(r), t), 0);
  }

  /** Nothing of the alias is held that begins in or before a known occurrence of it. */
  lemma {:induction false} CutAfterFound(kw: Keyword, u: string, found: string, d: string)
    requires kw.Valid() && NoOverlap(kw, kw) && SameText(found, kw.alias, kw.caseSensitive)
    requires SpanCut(u + found + d) == |u + found + d|
    ensures SafeLen(u + found + d, [kw]) >= |u| + |found|
  {
    hide SameText, NoOverlap, SafeLen, SpanCut, HeldSpan;
    var text, cs := u + found + d, kw.caseSensitive;
    var safe := SafeLen(text, [kw]);
    SafeLenIsMinimum(text, [kw]);
    SameSize(found, kw.alias, cs);
    if safe < |u| + |found| {
      var tail := text[safe..];
      assert IsPartialAlias(tail, kw.alias, cs);
      var n := |u| + |found| - safe;
      assert safe > |u| && n < |found|;
      SameTextSlice(tail, kw.alias[..|tail|], cs, 0, n);
      assert tail[0..n] == found[|found| - n..] && kw.alias[..|tail|][0..n] == kw.alias[..n];
      SameTextSlice(found, kw.alias, cs, |found| - n, |found|);
      assert found[|found| - n..|found|] == found[|found| - n..] && kw.alias[|found| - n..|found|] == kw.alias[|kw.alias| - n..];
      FoldChain(found[|found| - n..], kw.alias[|kw.alias| - n..], kw.alias[..n], cs, cs);
      OverlapAt(kw, n);
    }
  }

  lemma {:induction false} OverlapAt(kw: Keyword, n: nat)
    requires 0 < n < |kw.alias| && SameText(kw.alias[|kw.alias| - n..], kw.alias[..n], kw.caseSensitive)
    ensures !NoOverlap(kw, kw)
  {
    hide SameText;
  }

  // ---------- a replacement that begins a span ----------

  lemma {:induction false} OpeningReplacementShows(kw: Keyword, r: Rendering, found: string, i: nat)
    requires kw.Valid() && NoOverlap(kw, kw) && MarkerFree(kw) && SameText(found, kw.alias, kw.caseSensitive)
    requires var written := kw.Unmasking(r).Shaped(found); i < |written| && IsViable(written[i..])
    ensures exists more :: HeldSpanFits(found, more) && !CutHolds(Eraser(), [kw], r, found, more)
  {
    hide SameText, NoOverlap, SafeLen, SubstituteOutsideSpans, Walk, ErasedLen, AliasFree, HeldSpan, Swap.Shaped, Ending, CutHolds;
    var w := kw.Unmasking(r);
    var written := w.Shaped(found);
    var q := Walk(Before, written[i..]);
    var more := Ending(q) + "]";
    EndingLeads(q);
    EndingIsAliasFree(kw, q);
    WalkConcat(Before, written[i..], more);
    FoundIsNoSpan(kw, found, "");
    FoundIsNotHeld(found);
    ShortIsAliasFree(kw, "");
    assert "" + found + "" == found;
    CutAfterFound(kw, "", found, "");
    NoOpenNoSpan(found);
    UnmaskAround(kw, r, "", found, "");
    UnmaskAround(kw, r, "", found, more);
    assert "" + found + more == found + more && "" + written + more == written + more && "" + written + "" == written;
    NoOpenNoSpan(more);
    AliasFreeUntouched(kw, r, more);
    assert found[..|found|] == found && found[|found|..] + more == more;
    assert written[..i] + written[i..] == written && more + "" == more;
    CutSpanShows(r, written[..i], written[i..], more, "");
    CutShows(kw, r, found, more);
  }

  lemma {:induction false} FoundIsNotHeld(t: string)
    requires '[' !in t
    ensures HeldSpan(t) == None && SpanCut(t) == |t|
  {
    hide IsViable;
  }

  // ---------- a replacement that closes a span ----------

  /** At most the first character opens a bracket, and nothing closes one. */
  predicate OneOpen(t: string) { t != "" && t[0] == '[' && '[' !in t[1..] && ']' !in t }

  lemma {:induction false} LastOpenFirst(t: string)
    requires OneOpen(t)
    ensures LastOpen(t) == 0 && t[0..] == t
  {
    var i := LastOpen(t);
    assert forall j | 0 < j < |t| :: t[j] == t[1..][j - 1];
  }

  lemma {:induction false} ClosingReplacementShows(kw: Keyword, r: Rendering, found: string, p: Place, j: nat)
    requires kw.Valid() && NoOverlap(kw, kw) && MarkerFree(kw) && SameText(found, kw.alias, kw.caseSensitive)
    requires var written := kw.Unmasking(r).Shaped(found);
             p.Inside() && p != CategoryStart && j <= |written| && Walk(p, written[..j]) == Closed
    ensures exists text, more :: HeldSpanFits(text, more) && !CutHolds(Eraser(), [kw], r, text, more)
  {
    hide SameText, NoOverlap, SafeLen, SubstituteOutsideSpans, Walk, ErasedLen, AliasFree, HeldSpan, Swap.Shaped, Opening, CutHolds, SpanLen;
    var w := kw.Unmasking(r);
    var written := w.Shaped(found);
    var u := Opening(p, MAX_TOKEN_SPAN_LEN);
    OpeningLeads(p, MAX_TOKEN_SPAN_LEN);
    OpeningIsAliasFree(kw, p, MAX_TOKEN_SPAN_LEN);
    OpeningShape(p, MAX_TOKEN_SPAN_LEN);
    FoundIsNoSpan(kw, found, "");
    OverlongIsReleased(kw, u, found);
    var safe := SafeLen(u, [kw]);
    var front, back := u[..safe], u[safe..];
    assert front + back == u;
    NoCloseNoSpan(front);
    assert u[0..safe] == front && u[safe..|u|] == back;
    AliasFreePart(kw, u, 0, safe);
    AliasFreePart(kw, u, safe, |u|);
    AliasFreeUntouched(kw, r, front);
    ShortIsAliasFree(kw, "");
    NoCloseNoSpan(u + found + "");
    NoCloseNoSpan(back + found + "");
    UnmaskAround(kw, r, u, found, "");
    UnmaskAround(kw, r, back, found, "");
    assert u + found + "" == u + found && back + found + "" == back + found;
    assert u + written + "" == u + written && back + written + "" == back + written;
    var middle, last := back + written[..j], written[j..];
    assert front + middle == u + written[..j];
    WalkConcat(Before, u, written[..j]);
    WalkConcat(Before, front, middle);
    ViableFront(front, back);
    assert middle != "" by { ClosedNeedsText(p, written[..j]); }
    CutSpanShows(r, "", front, middle, last);
    assert "" + front == front && middle + last == back + written;
    assert front + (middle + last) == u + written;
    CutShows(kw, r, u, found);
  }

  lemma {:induction false} ClosedNeedsText(p: Place, s: string)
    requires p.Inside() && Walk(p, s) == Closed
    ensures s != ""
  {
  }

  /** A viable text over the cap is released, all but what may begin an alias. */
  lemma {:induction false} OverlongIsReleased(kw: Keyword, u: string, found: string)
    requires kw.Valid() && OneOpen(u) && |u| > MAX_TOKEN_SPAN_LEN && IsViable(u) && ']' !in found
    ensures HeldSpanFits(u, found) && 0 < SafeLen(u, [kw]) <= |u|
  {
    hide IsViable, SafeLen;
    LastOpenFirst(u);
    NoCloseNoSpan(u + found);
    assert (u + found)[0..] == u + found;
    SafeLenIsMinimum(u, [kw]);
    BracketIsNoAlias(kw, u);
  }

  lemma {:induction false} BracketIsNoAlias(kw: Keyword, t: string)
    requires kw.Valid() && t != "" && t[0] == '['
    ensures !IsPartialAlias(t, kw.alias, kw.caseSensitive)
  {
    NoAliasChar(kw, '[', 0);
    if IsPartialAlias(t, kw.alias, kw.caseSensitive) {
      PartialBeginsAlike(t, kw.alias, kw.caseSensitive);
    }
  }

  lemma {:induction false} PartialBeginsAlike(tail: string, alias: string, cs: bool)
    requires IsPartialAlias(tail, alias, cs)
    ensures tail != "" && alias != "" && SameChar(tail[0], alias[0], cs)
  {
    assert SameChar(tail[0], alias[..|tail|][0], cs);
  }

  // ---------- a replacement that reads differently ----------

  /** Where the alias and its replacement lead, and that some ending tells them apart. */
  lemma {:induction false} EndingTells(p: Place, found: string, written: string)
    requires p.Inside() && p != CategoryStart && found != "" && written != ""
    requires forall i | 0 <= i < |found| :: IsLetter(found[i]) || IsDigit(found[i])
    requires OffMarker(found)
    requires Walk(p, written).Inside() && Walk(p, written) != Walk(p, found)
    ensures Walk(Walk(p, found), Ending(Walk(p, written))) == Dead
  {
    hide Walk;
    var q, f := Walk(p, written), Walk(p, found);
    WalkDead(Ending(q));
    if p.PayloadStart? || p.InPayload? {
      FromPayload(p, found);
      InsidePayload(p, written);
    } else if p.InMarker? {
      FromMarker(p.seen, found);
    } else {
      FromCategory(found);
      if f != Dead {
        NotBackToStart(written);
        EndingKillsCategory(q);
      }
    }
  }

  lemma {:induction false} FromPayload(p: Place, found: string)
    requires (p.PayloadStart? || p.InPayload?) && found != ""
    requires forall i | 0 <= i < |found| :: IsLetter(found[i]) || IsDigit(found[i])
    ensures Walk(p, found) == InPayload
  {
    PayloadWalk(p, found);
  }

  lemma {:induction false} InsidePayload(p: Place, s: string)
    requires (p.PayloadStart? || p.InPayload?) && s != "" && Walk(p, s).Inside()
    ensures Walk(p, s) == InPayload
    decreases |s|
  {
    var q := Step(p, s[0]);
    if s[1..] == "" {
    } else if q.InPayload? {
      InsidePayload(q, s[1..]);
    } else {
      WalkDead(s[1..]);
    }
  }

  lemma {:induction false} NotBackToStart(s: string)
    requires s != ""
    ensures Walk(InCategory, s) != CategoryStart
  {
    NeverStart(Step(InCategory, s[0]), s[1..]);
  }

  lemma {:induction false} NeverStart(p: Place, s: string)
    requires p != CategoryStart && p != Before
    ensures Walk(p, s) != CategoryStart
    decreases |s|
  {
    if s != "" {
      NeverStart(Step(p, s[0]), s[1..]);
    }
  }

  /** From inside the marker, letters and digits lead on only along the marker. */
  lemma {:induction false} FromMarker(k: nat, found: string)
    requires k < |MARKER| && found != ""
    requires forall i | 0 <= i < |found| :: IsLetter(found[i]) || IsDigit(found[i])
    requires OffMarker(found)
    ensures Walk(InMarker(k), found) == Dead
  {
    hide Walk;
    if Walk(InMarker(k), found) != Dead {
      AlongMarker(k, found);
    }
  }

  /** Endings that lead on from the marker or the payload lead nowhere from a category. */
  lemma {:induction false} EndingKillsCategory(q: Place)
    requires q.Inside() && q != CategoryStart && q != InCategory
    ensures Walk(InCategory, Ending(q)) == Dead
  {
    PayloadStep();
    if q.InMarker? {
      var m := MARKER[q.seen..5] + "_";
      assert forall i | 0 <= i < |m| :: IsCategoryChar(m[i]);
      CategoryRun(m);
      WalkConcat(InCategory, m, "a");
    }
  }

  lemma {:induction false} NotInMarker(kw: Keyword, found: string)
    requires MarkerFree(kw) && SameText(found, kw.alias, kw.caseSensitive)
    ensures OffMarker(found)
  {
    hide SameText;
    SameSize(found, kw.alias, kw.caseSensitive);
    forall k | 0 <= k <= |MARKER| ensures !InMarkerAt(k, found) {
      assert !OccursAt(MARKER, k, kw.alias, kw.caseSensitive);
    }
  }

  lemma {:induction false} OtherReplacementShows(kw: Keyword, r: Rendering, found: string, p: Place)
    requires kw.Valid() && NoOverlap(kw, kw) && MarkerFree(kw) && SameText(found, kw.alias, kw.caseSensitive)
    requires var written := kw.Unmasking(r).Shaped(found);
             && p.Inside() && p != CategoryStart && written != ""
             && Walk(p, written).Inside() && Walk(p, written) != Walk(p, found)
    ensures exists text, more :: HeldSpanFits(text, more) && !CutHolds(Eraser(), [kw], r, text, more)
  {
    hide SameText, NoOverlap, SafeLen, SubstituteOutsideSpans, Walk, ErasedLen, AliasFree, HeldSpan, Swap.Shaped, Opening,
      Ending, CutHolds, SpanLen, MarkerFree;
    var w := kw.Unmasking(r);
    var written, u := w.Shaped(found), Opening(p, 1);
    var q, f := Walk(p, written), Walk(p, found);
    var d := Ending(q);
    OpeningLeads(p, 1);
    OpeningIsAliasFree(kw, p, 1);
    OpeningShape(p, 1);
    FoundIsNoSpan(kw, found, "");
    NotInMarker(kw, found);
    EndingTells(p, found, written);
    EndingLeads(q);
    EndingIsAliasFree(kw, q);
    var text := u + found + d;
    WalkConcat(Before, u, found);
    WalkConcat(Before, u + found, d);
    assert text[1..] == u[1..] + found + d;
    assert OneOpen(text);
    DeadIsNotHeld(text);
    CutAfterFound(kw, u, found, d);
    var safe := SafeLen(text, [kw]);
    CutInEnding(kw, r, u, found, d, safe);
    // the span that is completed
    var x := safe - |u| - |found|;
    var front, middle := u + written + d[..x], d[x..] + "]";
    assert front + middle == u + written + (d + "]");
    WalkConcat(Before, u, written);
    WalkConcat(Before, u + written, d + "]");
    ViableFront2(front, middle);
    CutSpanShows(r, "", front, middle, "");
    assert "" + front == front && middle + "" == middle;
    assert u + written + (d + "]") == u + written + d + "]";
    CutShows(kw, r, text, "]");
  }

  lemma {:induction false} ViableFront2(front: string, middle: string)
    requires front != "" && middle != "" && IsSpan(front + middle)
    ensures IsViable(front)
  {
    SpanPrefixesAreViable(front + middle, |front|);
    assert (front + middle)[..|front|] == front;
  }

  lemma {:induction false} DeadIsNotHeld(text: string)
    requires OneOpen(text) && Walk(Before, text) == Dead
    ensures HeldSpan(text) == None && SpanCut(text) == |text|
    ensures SpanLen(text + "]") == 0
  {
    hide Walk;
    LastOpenFirst(text);
    var n := SpanLen(text + "]");
    if n > 0 {
      var s := (text + "]")[..n];
      SpanShape(s);
      assert s[n - 1] == (text + "]")[n - 1];
      assert n == |text| + 1;
      assert s == text + "]";
      WalkConcat(Before, text, "]");
      WalkDead("]");
    }
  }

  /** Cut in the ending, the occurrence is whole in front of the cut. */
  lemma {:induction false} CutInEnding(kw: Keyword, r: Rendering, u: string, found: string, d: string, safe: nat)
    requires kw.Valid() && NoOverlap(kw, kw) && SameText(found, kw.alias, kw.caseSensitive) && AliasFree(kw, u)
    requires AliasFree(kw, d + "]") && '[' !in d + "]" && ']' !in d && ']' !in found
    requires OneOpen(u + found + d) && SpanLen(u + found + d + "]") == 0
    requires |u| + |found| <= safe <= |u + found + d| && u != ""
    ensures var w, text, x := kw.Unmasking(r), u + found + d, safe - |u| - |found|;
            && SubstituteOutsideSpans(w, text + "]") == u + w.Shaped(found) + d + "]"
            && SubstituteOutsideSpans(w, text[..safe]) == u + w.Shaped(found) + d[..x]
            && SubstituteOutsideSpans(w, text[safe..] + "]") == d[x..] + "]"
  {
    hide SameText, NoOverlap, SubstituteOutsideSpans, AliasFree, Swap.Shaped, SpanLen;
    var w, text, x := kw.Unmasking(r), u + found + d, safe - |u| - |found|;
    var whole, post := text + "]", d + "]";
    assert u + found + post == whole;
    forall i | 0 <= i < |u| ensures SpanLen((u + found + post)[i..]) == 0 {
      if i == 0 {
        assert whole[0..] == whole;
      } else {
        assert whole[i] == text[i] == text[1..][i - 1];
        assert whole[i..][0] == whole[i];
        NoFrontBracketNoSpan(whole[i..]);
      }
    }
    UnmaskAround(kw, r, u, found, post);
    assert u + w.Shaped(found) + post == u + w.Shaped(found) + d + "]";
    assert post[0..x] == d[..x] && post[x..|post|] == d[x..] + "]";
    AliasFreePart(kw, post, 0, x);
    AliasFreePart(kw, post, x, |post|);
    assert text[..safe] == u + found + d[..x];
    NoCloseNoSpan(u + found + d[..x]);
    UnmaskAround(kw, r, u, found, d[..x]);
    assert text[safe..] + "]" == d[x..] + "]";
    NoOpenNoSpan(d[x..] + "]");
    AliasFreeUntouched(kw, r, d[x..] + "]");
  }

  lemma {:induction false} NoFrontBracketNoSpan(t: string)
    requires t != "" && t[0] != '['
    ensures SpanLen(t) == 0
  {
    if SpanLen(t) > 0 {
      SpanLenNeedsBracket(t);
    }
  }

  // ---------- exactly when ----------

  /** From the start of a category a reader goes where one in the middle of it goes, or nowhere. */
  lemma {:induction false} StartIsCategory(s: string)
    requires s != ""
    ensures Walk(CategoryStart, s) == Dead || Walk(CategoryStart, s) == Walk(InCategory, s)
  {
    if !IsCategoryChar(s[0]) {
      WalkDead(s[1..]);
    }
  }

  lemma {:induction false} AliasFromStart(s: string)
    requires s != "" && (IsLetter(s[0]) || IsDigit(s[0]))
    ensures Walk(CategoryStart, s) == Walk(InCategory, s)
  {
  }

  lemma {:induction false} WrittenIsText(kw: Keyword, r: Rendering, found: string)
    requires kw.Valid()
    ensures kw.Unmasking(r).Shaped(found) != ""
  {
    var p := DetectCasePattern(found);
    CaseKeepsShape(kw.matchText, p);
    EscapeKeepsText(kw.matchText);
    EscapeKeepsText(ApplyCasePattern(kw.matchText, p));
  }

  lemma {:induction false} EscapeKeepsText(s: string)
    requires s != ""
    ensures JsonEscape(s) != ""
  {
    EscapedChar(s[0]);
  }

  /** A keyword that is not span-neutral is cut wrongly somewhere. */
  lemma {:induction false} NeutralityIsNeeded(kw: Keyword, r: Rendering)
    requires kw.Valid() && NoOverlap(kw, kw) && MarkerFree(kw) && !SpanNeutral(kw.Unmasking(r))
    ensures exists text, more :: HeldSpanFits(text, more) && !CutHolds(Eraser(), [kw], r, text, more)
  {
    hide SameText, NoOverlap, Walk, MarkerFree, CutHolds, HeldSpanFits, Swap.Shaped, IsViable;
    var w := kw.Unmasking(r);
    var found :| w.Matches(found) && !ReadsAlike(found, w.Shaped(found));
    var written := w.Shaped(found);
    WrittenIsText(kw, r, found);
    FoundIsNoSpan(kw, found, "");
    if !OpensNothing(written) {
      var i :| 0 <= i < |written| && IsViable(written[i..]);
      OpeningReplacementShows(kw, r, found, i);
    } else if !ClosesNothing(written) {
      var p: Place, j :| p.Inside() && 0 <= j <= |written| && Walk(p, written[..j]) == Closed;
      ClosedNeedsText(p, written[..j]);
      StartIsCategory(written[..j]);
      ClosingReplacementShows(kw, r, found, if p.CategoryStart? then InCategory else p, j);
    } else {
      var p: Place :| p.Inside() && Walk(p, written) != Dead && Walk(p, written) != Walk(p, found);
      WholeDoesNotClose(written, p);
      WalkSane(p, written);
      NeverBackBefore(p, written);
      StartIsCategory(written);
      AliasFromStart(found);
      OtherReplacementShows(kw, r, found, if p.CategoryStart? then InCategory else p);
    }
  }

  /** With one keyword that stands for something else and is no part of the word TOKEN, the cut theorem
      holds for every sealer, text and continuation exactly when no proper tail of the alias begins it
      and what is written for it is span-neutral. */
  lemma {:induction false} OneKeywordExactly(kw: Keyword, r: Rendering)
    requires kw.Valid() && MarkerFree(kw) && kw.Unmasking(r).Shaped(kw.alias) != kw.alias
    ensures (forall k, text, more | HeldSpanFits(text, more) :: CutHolds(k, [kw], r, text, more))
            <==> NoOverlap(kw, kw) && SpanNeutral(kw.Unmasking(r))
  {
    hide SafeLen, HeldSpanFits, Rewritten, SpanNeutral, MarkerFree, CutHolds, Swap.Shaped;
    if !NoOverlap(kw, kw) {
      RefusedOrUnchanged(r, kw.Unmasking(r).Shaped(kw.alias), 0);
      OverlapBreaksTheCut(Refuser(), kw, r);
    } else if !SpanNeutral(kw.Unmasking(r)) {
      NeutralityIsNeeded(kw, r);
    } else {
      forall k, text, more | HeldSpanFits(text, more) ensures CutHolds(k, [kw], r, text, more) {
        OneKeywordCut(k, kw, r, text, more);
      }
    }
  }

  lemma {:induction false} OneKeywordCut(k: Sealer, kw: Keyword, r: Rendering, text: string, more: string)
    requires kw.Valid() && NoOverlap(kw, kw) && SpanNeutral(kw.Unmasking(r)) && HeldSpanFits(text, more)
    ensures CutHolds(k, [kw], r, text, more)
  {
    hide SafeLen, HeldSpanFits, Rewritten;
    CutTheorem(k, [kw], r, text, more);
  }
}
