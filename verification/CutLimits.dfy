/** How far the cut theorem reaches: conditions that are exact, conditions that are easy to check,
    and inputs on which the theorem fails without them. */
module CutLimits {
  import opened Text
  import opened TokenSpan
  import opened SpanWalker
  import opened Sealing
  import opened Detokenize
  import opened Keywords
  import opened Unmasking
  import opened StreamingCut

  /** What streaming needs at one cut. */
  ghost predicate CutHolds(k: Sealer, ks: seq<Keyword>, r: Rendering, text: string, more: string) {
    var safe := SafeLen(text, ks);
    Rewritten(k, ks, r, text + more)
    == Join(Rewritten(k, ks, r, text[..safe]), Rewritten(k, ks, r, text[safe..] + more))
  }

  // ---------- texts without spans ----------

  lemma {:induction false} NoBracketNoSpan(t: string)
    requires '[' !in t
    ensures SpanLen(t) == 0
  {
    if SpanLen(t) > 0 {
      SpanLenNeedsBracket(t);
    }
  }

  lemma {:induction false} BracketFreeRecovers(k: Sealer, r: Rendering, t: string)
    requires '[' !in t
    ensures Recovered(k, r, t) == Some(t)
  {
    forall j | 0 <= j < |t| ensures SpanLen(t[j..]) == 0 {
      NoBracketNoSpan(t[j..]);
    }
    SpanFreeRecovers(k, r, t, 0);
  }

  /** A text shorter than the alias holds no occurrence of it. */
  lemma {:induction false} ShortTextUntouched(w: Swap, t: string)
    requires |t| < |w.needle|
    ensures SubstituteOutsideSpans(w, t) == t
    decreases |t|
  {
    hide SpanLen, SameText, SubstituteOutsideSpans;
    if t == "" {
      NothingToSubstitute(w, t);
    } else {
      OneStep(w, t);
      var n := Consumed(w, t);
      ShortTextUntouched(w, t[n..]);
      assert t == t[..n] + t[n..];
    }
  }

  lemma {:induction false} OneKeyword(kw: Keyword, r: Rendering, t: string)
    ensures Unmask([kw], r, t) == SubstituteOutsideSpans(kw.Unmasking(r), t)
  {
    assert [kw][1..] == [];
  }

  // ---------- one keyword: exactly when ----------

  lemma {:induction false} AliasHasNoBracket(kw: Keyword)
    requires kw.Valid()
    ensures '[' !in kw.alias
  {
  }

  /** An alias that overlaps itself, such as `Bob` matched without regard to case, is cut apart
      when it arrives, and never unmasked: wrong unless it stands for itself. */
  lemma {:induction false} OverlapBreaksTheCut(k: Sealer, kw: Keyword, r: Rendering)
    requires kw.Valid() && !NoOverlap(kw, kw)
    requires Recovered(k, r, kw.Unmasking(r).Shaped(kw.alias)) != Some(kw.alias)
    ensures HeldSpanFits(kw.alias, "") && !CutHolds(k, [kw], r, kw.alias, "")
  {
    hide SafeLen, SpanLen, SameText, Unmask, SubstituteOutsideSpans, DetokenizeFrom, Render;
    var alias, w := kw.alias, kw.Unmasking(r);
    var safe := SafeLen(alias, [kw]);
    CutInsideOverlap(kw);
    AliasHasNoBracket(kw);
    assert alias[safe..] + "" == alias[safe..] && alias + "" == alias;
    OneKeyword(kw, r, alias);
    OneKeyword(kw, r, alias[..safe]);
    OneKeyword(kw, r, alias[safe..]);
    ShortTextUntouched(w, alias[..safe]);
    ShortTextUntouched(w, alias[safe..]);
    BracketFreeRecovers(k, r, alias[..safe]);
    BracketFreeRecovers(k, r, alias[safe..]);
    assert alias[..safe] + alias[safe..] == alias;
    WholeAliasUnmasked(kw, r);
  }

  /** A sealer that opens nothing. */
  function Refuser(): Sealer {
    Sealer((c, v) => None, (c, b) => None, b => "", s => None)
  }

  lemma {:induction false} RefusedOrUnchanged(r: Rendering, t: string, i: nat)
    ensures DetokenizeFrom(Refuser(), r, t, i).Err? || DetokenizeFrom(Refuser(), r, t, i) == Ok(t)
    decreases |t|
  {
    hide SpanLen, ErrorCategory;
    if t != "" {
      RefusedOrUnchanged(r, t[1..], i);
      assert [t[0]] + t[1..] == t;
    }
  }

  lemma {:induction false} SameAsItself(x: string, cs: bool)
    ensures SameText(x, x, cs)
  {
  }

  lemma {:induction false} WholeAliasUnmasked(kw: Keyword, r: Rendering)
    requires kw.Valid()
    ensures SubstituteOutsideSpans(kw.Unmasking(r), kw.alias) == kw.Unmasking(r).Shaped(kw.alias)
  {
    hide SpanLen, SameText, SubstituteOutsideSpans, Render;
    var w := kw.Unmasking(r);
    AliasHasNoBracket(kw);
    NoBracketNoSpan(kw.alias);
    SameAsItself(kw.alias, kw.caseSensitive);
    assert kw.alias[..|kw.alias|] == kw.alias;
    OneStep(w, kw.alias);
    NothingToSubstitute(w, kw.alias[|kw.alias|..]);
  }

  lemma {:induction false} CutInsideOverlap(kw: Keyword)
    requires kw.Valid() && !NoOverlap(kw, kw)
    ensures 0 < SafeLen(kw.alias, [kw]) < |kw.alias|
    ensures HeldSpan(kw.alias) == None
  {
    hide SafeLen, SameText, IsViable;
    var alias := kw.alias;
    AliasHasNoBracket(kw);
    assert LastOpen(alias) == |alias|;
    SafeLenIsMinimum(alias, [kw]);
    assert kw in [kw];
    var n :| 0 < n < |alias| && SameText(alias[|alias| - n..], alias[..n], kw.caseSensitive);
    assert IsPartialAlias(alias[|alias| - n..], alias, kw.caseSensitive);
    assert alias[0..] == alias;
    assert !IsPartialAlias(alias[0..], alias, kw.caseSensitive);
  }

  // ---------- no keyword: exactly when ----------

  /** A sealer under which every span stands for nothing, so that recovery counts what is left. */
  function Eraser(): Sealer {
    Sealer((c, v) => None, (c, b) => Some(""), b => "", s => Some([]))
  }

  lemma {:induction false} ErasedParse(s: string)
    requires IsSpan(s)
    ensures ResolveSpan(Eraser(), s) == Some("")
  {
    hide IsSpan;
    var c, p := SpanParts(s);
    ParseInvertsPrint(c, p);
  }

  lemma {:induction false} ErasureSucceeds(r: Rendering, t: string, i: nat)
    ensures DetokenizeFrom(Eraser(), r, t, i).Ok?
    decreases |t|
  {
    hide SpanLen;
    if t != "" {
      var n := SpanLen(t);
      if n > 0 {
        ErasedParse(t[..n]);
        ErasureSucceeds(r, t[n..], i + 1);
      } else {
        ErasureSucceeds(r, t[1..], i);
      }
    }
  }

  /** Characters of `t` outside its spans. */
  ghost function ErasedLen(r: Rendering, t: string): nat {
    ErasureSucceeds(r, t, 0);
    |Recovered(Eraser(), r, t).value|
  }

  lemma {:induction false} ErasedLenAdds(r: Rendering, a: string, b: string)
    requires NoSpanStraddles(a, b)
    ensures ErasedLen(r, a + b) == ErasedLen(r, a) + ErasedLen(r, b)
  {
    hide DetokenizeFrom;
    ErasureSucceeds(r, a, 0);
    ErasureSucceeds(r, b, 0);
    RecoveredConcat(Eraser(), r, a, b);
  }

  lemma {:induction false} ErasedSpan(r: Rendering, s: string)
    requires IsSpan(s)
    ensures ErasedLen(r, s) == 0
  {
    hide SpanLen, IsSpan;
    ErasedParse(s);
    assert s[..|s|] == s && s[|s|..] == "";
    SpanLenUnique(s, |s|);
    assert DetokenizeFrom(Eraser(), r, s[|s|..], 1) == Ok("");
    assert Render(r, "") == "" && "" + "" == "";
  }

  /** Without keywords, a cut is harmless for every sealer exactly when the tail it releases for
      being over the cap does not become a span after all. */
  lemma {:induction false} NoKeywordExactly(r: Rendering, text: string, more: string)
    ensures (forall k :: CutHolds(k, [], r, text, more)) <==> HeldSpanFits(text, more)
  {
    hide HeldSpanFits, Rewritten;
    if HeldSpanFits(text, more) {
      forall k ensures CutHolds(k, [], r, text, more) {
        CutTheorem(k, [], r, text, more);
      }
    } else {
      OverlongSpanBreaksTheCut(r, text, more);
    }
  }

  /** A span cut in two counts in full; left whole it counts for nothing. */
  lemma {:induction false} CutSpanShows(r: Rendering, pre: string, tail: string, middle: string, last: string)
    requires IsViable(tail) && IsSpan(tail + middle) && middle != ""
    ensures ErasedLen(r, (pre + tail) + (middle + last)) < ErasedLen(r, pre + tail) + ErasedLen(r, middle + last)
  {
    hide IsSpan, IsViable, ErasedLen, NoSpanStraddles;
    var span := tail + middle;
    SpanShape(span);
    SpanShape(tail);
    assert forall i | 0 <= i < |middle| :: middle[i] == span[|tail| + i];
    BracketIsASeam(pre, span + last);
    ErasedLenAdds(r, pre, span + last);
    SpanThenRest(span, last);
    ErasedLenAdds(r, span, last);
    ErasedSpan(r, span);
    assert (pre + tail) + (middle + last) == pre + (span + last);
    BracketIsASeam(pre, tail);
    ErasedLenAdds(r, pre, tail);
    ViableErasedLen(r, tail);
    BracketIsASeam(middle, last);
    ErasedLenAdds(r, middle, last);
  }

  lemma {:induction false} OverlongSpanBreaksTheCut(r: Rendering, text: string, more: string)
    requires !HeldSpanFits(text, more)
    ensures !CutHolds(Eraser(), [], r, text, more)
  {
    hide SpanLen, HeldSpan, DetokenizeFrom, IsSpan, IsViable, Recovered;
    var s := HeldSpan(text).value;
    var pre, tail := text[..s], text[s..];
    HeldSpanIsViable(text, s);
    var n := SpanLen(tail + more);
    ViableHasNoSpan(tail);
    if n <= |tail| {
      assert (tail + more)[..n] == tail[..n];
      SpanLenUnique(tail, n);
    }
    var middle, last := more[..n - |tail|], more[n - |tail|..];
    assert (tail + more)[..n] == tail + middle;
    CutSpanShows(r, pre, tail, middle, last);
    assert pre + tail == text && middle + last == more;
    assert text[..|text|] == text && text[|text|..] + more == more;
    UncutText(r, text, more);
    ErasureSucceeds(r, text, 0);
    ErasureSucceeds(r, more, 0);
    ErasureSucceeds(r, text + more, 0);
  }

  lemma {:induction false} UncutText(r: Rendering, text: string, more: string)
    requires !HeldSpanFits(text, more)
    ensures SafeLen(text, []) == |text|
    ensures forall t :: Rewritten(Eraser(), [], r, t) == Recovered(Eraser(), r, t)
  {
  }

  lemma {:induction false} ViableErasedLen(r: Rendering, tail: string)
    requires IsViable(tail)
    ensures ErasedLen(r, tail) == |tail|
  {
    hide SpanLen, IsViable;
    SpanShape(tail);
    ViableHasNoSpan(tail);
    forall j | 0 <= j < |tail| ensures SpanLen(tail[j..]) == 0 {
      assert tail[j..][0] == tail[j];
      if j == 0 {
        assert tail[0..] == tail;
      } else if SpanLen(tail[j..]) > 0 {
        SpanLenNeedsBracket(tail[j..]);
      }
    }
    SpanFreeRecovers(Eraser(), r, tail, 0);
  }

  // ---------- replacements that never complete a span ----------

  predicate HasOuterChar(s: string) { exists i | 0 <= i < |s| :: !IsInnerChar(s[i]) }

  /** A character that is in no span keeps the whole replacement out of every span. */
  lemma {:induction false} OuterCharNeutral(found: string, written: string)
    requires NoBrackets(written) && HasOuterChar(written)
    ensures ReadsAlike(found, written)
  {
    hide Walk;
    BracketFreeOpensNothing(written);
    forall p: Place | p.Inside() ensures Walk(p, written) == Dead {
      assert written != "" && written[|written| - 1] != ']';
      if Walk(p, written) != Dead {
        WalkInside(p, written);
      }
    }
  }

  /** A replacement of payload characters that cannot belong to a category or to the marker is
      read like any alias: it can only stand in a payload. */
  lemma {:induction false} PayloadOnlyNeutral(found: string, written: string)
    requires IsPayload(found) && IsPayload(written) && '_' !in written
    requires exists i | 0 <= i < |written| :: !IsCategoryChar(written[i])
    ensures ReadsAlike(found, written)
  {
    hide Walk;
    assert '[' !in written && ']' !in written;
    BracketFreeOpensNothing(written);
    forall p: Place | p.Inside() && Walk(p, written) != Dead ensures Walk(p, written) == Walk(p, found) {
      if p.PayloadStart? || p.InPayload? {
        PayloadWalk(p, written);
        PayloadWalk(p, found);
      } else {
        NoUnderscoreStaysOut(p, written);
      }
    }
  }

  lemma {:induction false} PayloadWalk(p: Place, s: string)
    requires (p.PayloadStart? || p.InPayload?) && IsPayload(s)
    ensures Walk(p, s) == InPayload
  {
    PayloadRun(s[1..]);
  }

  lemma {:induction false} NoUnderscoreStaysOut(p: Place, s: string)
    requires p.Inside() && !p.PayloadStart? && !p.InPayload? && '_' !in s
    requires exists i | 0 <= i < |s| :: !IsCategoryChar(s[i])
    requires forall i | 0 <= i < |s| :: s[i] != ':'
    ensures Walk(p, s) == Dead
    decreases |s|
  {
    var q := Step(p, s[0]);
    if q == Dead {
      WalkDead(s[1..]);
    } else {
      assert q.Inside() && !q.PayloadStart? && !q.InPayload?;
      assert IsCategoryChar(s[0]);
      var i :| 0 <= i < |s| && !IsCategoryChar(s[i]);
      assert s[1..][i - 1] == s[i];
      NoUnderscoreStaysOut(q, s[1..]);
    }
  }

  lemma {:induction false} CaseKeepsShape(s: string, p: CasePattern)
    ensures |ApplyCasePattern(s, p)| == |s|
    ensures NoBrackets(s) ==> NoBrackets(ApplyCasePattern(s, p))
    ensures HasOuterChar(s) ==> HasOuterChar(ApplyCasePattern(s, p))
  {
    var t := ApplyCasePattern(s, p);
    forall i | 0 <= i < |s| ensures t[i] == s[i] || t[i] == ToLower(s[i]) || t[i] == ToUpper(s[i]) {
    }
    if HasOuterChar(s) {
      var i :| 0 <= i < |s| && !IsInnerChar(s[i]);
      assert t[i] == s[i];
    }
  }

  lemma {:induction false} EscapeKeepsShape(s: string)
    ensures NoBrackets(s) ==> NoBrackets(JsonEscape(s))
    ensures HasOuterChar(s) ==> HasOuterChar(JsonEscape(s))
  {
    if s != "" {
      EscapeKeepsShape(s[1..]);
      var head, rest := EscapeChar(s[0]), JsonEscape(s[1..]);
      EscapedChar(s[0]);
      if HasOuterChar(s) {
        if !IsInnerChar(s[0]) {
          assert JsonEscape(s)[0] == head[0];
        } else {
          var i :| 0 <= i < |s| && !IsInnerChar(s[i]);
          assert s[1..][i - 1] == s[i];
          var j :| 0 <= j < |rest| && !IsInnerChar(rest[j]);
          assert JsonEscape(s)[|head| + j] == rest[j];
        }
      }
    }
  }

  lemma {:induction false} EscapedChar(c: char)
    ensures c != '[' && c != ']' ==> NoBrackets(EscapeChar(c))
    ensures |EscapeChar(c)| > 0 && (!IsInnerChar(c) ==> !IsInnerChar(EscapeChar(c)[0]))
  {
  }

  /** A keyword whose match text holds no bracket and some character outside the span alphabet
      never completes a span, whatever the case of the alias and however the text is written. */
  lemma {:induction false} OuterMatchIsNeutral(kw: Keyword, r: Rendering)
    requires NoBrackets(kw.matchText) && HasOuterChar(kw.matchText)
    ensures SpanNeutral(kw.Unmasking(r))
  {
    hide NoBrackets, HasOuterChar, ReadsAlike, SameText;
    var w := kw.Unmasking(r);
    forall found | w.Matches(found) ensures ReadsAlike(found, w.Shaped(found)) {
      var p := if w.caseSensitive then Mixed else DetectCasePattern(found);
      var shaped := ApplyCasePattern(kw.matchText, p);
      CaseKeepsShape(kw.matchText, p);
      EscapeKeepsShape(shaped);
      OuterCharNeutral(found, w.Shaped(found));
    }
  }

  // ---------- match texts that are ordinary words ----------

  /** Written the same inside a JSON string. */
  predicate NeedsNoEscape(s: string) { forall i | 0 <= i < |s| :: EscapeChar(s[i]) == [s[i]] }

  lemma {:induction false} EscapeOfPlain(s: string)
    requires NeedsNoEscape(s)
    ensures JsonEscape(s) == s
  {
    if s != "" {
      hide EscapeChar;
      EscapeOfPlain(s[1..]);
      assert s == [s[0]] + s[1..];
    }
  }

  lemma {:induction false} PayloadIsPlain(s: string)
    requires forall i | 0 <= i < |s| :: IsPayloadChar(s[i])
    ensures NeedsNoEscape(s)
  {
  }

  predicate InMarkerAt(k: nat, s: string) { k + |s| <= |MARKER| && MARKER[k..k + |s|] == s }

  /** No part of the marker. */
  predicate OffMarker(s: string) { forall k | 0 <= k <= |MARKER| :: !InMarkerAt(k, s) }

  /** From inside the marker a text without its last character leads on only along it. */
  lemma {:induction false} AlongMarker(k: nat, s: string)
    requires k < |MARKER| && Walk(InMarker(k), s) != Dead && '_' !in s
    ensures k + |s| < |MARKER| && InMarkerAt(k, s)
    decreases |s|
  {
    if s != "" {
      var q := Step(InMarker(k), s[0]);
      assert q == InMarker(k + 1) by {
        if q == Dead {
          WalkDead(s[1..]);
        }
        assert MARKER[5] == '_';
      }
      AlongMarker(k + 1, s[1..]);
      assert s == [MARKER[k]] + MARKER[k + 1..k + |s|];
    }
  }

  /** From a category a text of payload characters leads nowhere but on through the category. */
  lemma {:induction false} FromCategory(s: string)
    requires forall i | 0 <= i < |s| :: IsPayloadChar(s[i])
    ensures Walk(InCategory, s) == InCategory || Walk(InCategory, s) == Dead
    ensures s != "" ==> Walk(CategoryStart, s) == Walk(InCategory, s)
  {
    if s != "" {
      if IsCategoryChar(s[0]) {
        FromCategory(s[1..]);
      } else {
        WalkDead(s[1..]);
      }
    }
  }

  lemma {:induction false} CategoryTextRuns(s: string)
    requires IsCategory(s)
    ensures Walk(InCategory, s) == InCategory && Walk(CategoryStart, s) == InCategory
  {
    CategoryRun(s);
    CategoryRun(s[1..]);
  }

  /** A shouted word for a shouted alias: both go on in a category or a payload, and neither in a marker. */
  lemma {:induction false} ShoutedIsNeutral(found: string, written: string)
    requires IsPayload(found) && IsCategory(found)
    requires IsPayload(written) && '_' !in written && OffMarker(written)
    ensures ReadsAlike(found, written)
  {
    hide Walk, OffMarker;
    assert '[' !in written && ']' !in written;
    BracketFreeOpensNothing(written);
    CategoryTextRuns(found);
    FromCategory(written);
    forall p: Place | p.Inside() && Walk(p, written) != Dead ensures Walk(p, written) == Walk(p, found) {
      if p.PayloadStart? || p.InPayload? {
        PayloadWalk(p, written);
        PayloadWalk(p, found);
      } else if p.InMarker? {
        AlongMarker(p.seen, written);
        OffMarkerAt(p.seen, written);
      }
    }
  }

  lemma {:induction false} OffMarkerAt(k: nat, s: string)
    requires OffMarker(s) && k <= |MARKER|
    ensures !InMarkerAt(k, s)
  {
  }

  /** An ordinary word: letters, digits and hyphens, and not all in capitals. Matched without regard to
      case it has a small letter after the first character, and shouted it is no part of the marker. */
  predicate IsWord(kw: Keyword) {
    && IsPayload(kw.matchText) && '_' !in kw.matchText
    && (if kw.caseSensitive then exists i :: 0 <= i < |kw.matchText| && !IsCategoryChar(kw.matchText[i])
        else (exists i :: 1 <= i < |kw.matchText| && IsLower(kw.matchText[i])) && OffMarker(Upper(kw.matchText)))
  }

  lemma {:induction false} CasedWord(s: string, p: CasePattern)
    requires IsPayload(s) && '_' !in s
    ensures IsPayload(ApplyCasePattern(s, p)) && '_' !in ApplyCasePattern(s, p)
    ensures p != Uppercase && (exists i :: 1 <= i < |s| && IsLower(s[i])) ==>
              exists i :: 0 <= i < |s| && !IsCategoryChar(ApplyCasePattern(s, p)[i])
  {
    var t := ApplyCasePattern(s, p);
    forall i | 0 <= i < |s| ensures t[i] == s[i] || t[i] == ToLower(s[i]) || t[i] == ToUpper(s[i]) {
    }
    if p != Uppercase {
      if i :| 1 <= i < |s| && IsLower(s[i]) {
        assert t[i] == s[i];
      }
    }
  }

  lemma {:induction false} FoundIsPayload(kw: Keyword, found: string)
    requires kw.Valid() && SameText(found, kw.alias, kw.caseSensitive)
    ensures IsPayload(found)
    ensures DetectCasePattern(found) == Uppercase ==> IsCategory(found)
  {
    forall i | 0 <= i < |found| ensures IsLetter(found[i]) || IsDigit(found[i]) {
      assert SameChar(found[i], kw.alias[i], kw.caseSensitive);
    }
  }

  /** A keyword whose match text is an ordinary word never completes a span either, however it is cased
      and written. */
  lemma {:induction false} WordMatchIsNeutral(kw: Keyword, r: Rendering)
    requires kw.Valid() && IsWord(kw)
    ensures SpanNeutral(kw.Unmasking(r))
  {
    hide ReadsAlike, SameText, IsPayload, IsCategory, OffMarker, DetectCasePattern, Keyword.Valid;
    var w := kw.Unmasking(r);
    forall found | w.Matches(found) ensures ReadsAlike(found, w.Shaped(found)) {
      var p := DetectCasePattern(found);
      var word := if kw.caseSensitive then kw.matchText else ApplyCasePattern(kw.matchText, p);
      FoundIsPayload(kw, found);
      CasedWord(kw.matchText, p);
      WrittenAsIs(r, word);
      if !kw.caseSensitive && p == Uppercase {
        ShoutedIsNeutral(found, word);
      } else {
        PayloadOnlyNeutral(found, word);
      }
    }
  }

  lemma {:induction false} WrittenAsIs(r: Rendering, s: string)
    requires IsPayload(s)
    ensures Detokenize.Render(r, s) == s
  {
    PayloadIsPlain(s);
    EscapeOfPlain(s);
  }

  // ---------- inputs on which the theorem fails without its other conditions ----------

  lemma {:induction false} NoFirstCharUntouched(w: Swap, t: string)
    requires w.caseSensitive && w.needle != "" && w.needle[0] !in t
    ensures SubstituteOutsideSpans(w, t) == t
    decreases |t|
  {
    hide SpanLen, SubstituteOutsideSpans, Render;
    if t == "" {
      NothingToSubstitute(w, t);
    } else {
      OneStep(w, t);
      assert !w.Hit(t) by {
        assert |w.needle| <= |t| ==> t[..|w.needle|][0] == t[0];
      }
      var n := Consumed(w, t);
      NoFirstCharUntouched(w, t[n..]);
      assert t == t[..n] + t[n..];
    }
  }

  /** An exact occurrence of the alias between two texts that hold no `[` and not its first letter. */
  lemma {:induction false} OneHit(w: Swap, pre: string, post: string)
    requires w.caseSensitive && w.needle != "" && '[' !in w.needle && '[' !in post
    requires w.needle[0] !in pre && w.needle[0] !in post
    requires forall i | 0 <= i < |pre| :: SpanLen((pre + w.needle + post)[i..]) == 0
    ensures SubstituteOutsideSpans(w, pre + w.needle + post) == pre + w.Shaped(w.needle) + post
    decreases |pre|
  {
    hide SpanLen, SubstituteOutsideSpans, Render;
    var t := pre + w.needle + post;
    OneStep(w, t);
    assert t[0..] == t;
    if pre == "" {
      assert t[..|w.needle|] == w.needle && t[|w.needle|..] == post;
      NoBracketNoSpan(t);
      ExactIsEqual(w.needle, w.needle);
      NoFirstCharUntouched(w, post);
    } else {
      assert !w.Hit(t) by {
        assert |w.needle| <= |t| ==> t[..|w.needle|][0] == t[0] == pre[0];
      }
      var rest := pre[1..] + w.needle + post;
      assert t[1..] == rest && t[..1] == pre[..1];
      forall i | 0 <= i < |pre[1..]| ensures SpanLen(rest[i..]) == 0 {
        assert rest[i..] == t[i + 1..];
      }
      OneHit(w, pre[1..], post);
      assert pre[..1] + (pre[1..] + w.Shaped(w.needle) + post) == pre + w.Shaped(w.needle) + post;
    }
  }

  lemma {:induction false} NothingHeld(text: string, ks: seq<Keyword>)
    requires HeldSpan(text) == None
    requires forall kw | kw in ks :: kw.caseSensitive && kw.Valid()
    requires forall kw, i | kw in ks && kw.Valid() && 0 <= i < |text| < i + |kw.alias| :: text[i] != kw.alias[0]
    ensures SafeLen(text, ks) == |text|
  {
    hide HeldSpan, SafeLen, IsPartialAlias;
    SafeLenIsMinimum(text, ks);
    if SafeLen(text, ks) != |text| {
      var kw :| kw in ks && SafeLen(text, ks) == AliasPrefixStart(text, kw.alias, kw.caseSensitive);
      PartialFirstChar(text[SafeLen(text, ks)..], kw.alias);
    }
  }

  lemma {:induction false} PartialFirstChar(tail: string, alias: string)
    requires IsPartialAlias(tail, alias, true)
    ensures tail[0] == alias[0] && |tail| < |alias|
  {
    assert SameChar(tail[0], alias[..|tail|][0], true);
  }

  const FIRST := Keyword("pqa", "Foo", true)
  const SECOND := Keyword("zzz", "abc", true)

  lemma {:induction false} BothUnmasked(t: string)
    ensures Unmask([FIRST, SECOND], Verbatim, t)
            == SubstituteOutsideSpans(SECOND.Unmasking(Verbatim), SubstituteOutsideSpans(FIRST.Unmasking(Verbatim), t))
  {
    hide SubstituteOutsideSpans;
    assert [FIRST, SECOND][1..] == [SECOND];
    OneKeyword(SECOND, Verbatim, SubstituteOutsideSpans(FIRST.Unmasking(Verbatim), t));
  }

  lemma {:induction false} InterferenceWhole()
    ensures Unmask([FIRST, SECOND], Verbatim, "Foo" + "bc") == "pqzzz"
  {
    hide SubstituteOutsideSpans, SpanLen, Unmask;
    var u, v := FIRST.Unmasking(Verbatim), SECOND.Unmasking(Verbatim);
    BothUnmasked("Foo" + "bc");
    assert "Foo" + "bc" == "" + u.needle + "bc";
    OneHit(u, "", "bc");
    var t := "" + u.Shaped(u.needle) + "bc";
    assert t == "pq" + v.needle + "";
    forall i | 0 <= i < 2 ensures SpanLen(("pq" + v.needle + "")[i..]) == 0 {
      NoBracketNoSpan(("pq" + v.needle + "")[i..]);
    }
    OneHit(v, "pq", "");
    assert "pq" + v.Shaped(v.needle) + "" == "pqzzz";
  }

  lemma {:induction false} InterferenceParts()
    ensures Unmask([FIRST, SECOND], Verbatim, "Foo") == "pqa"
    ensures Unmask([FIRST, SECOND], Verbatim, "bc") == "bc"
  {
    hide SubstituteOutsideSpans, SpanLen, Unmask;
    var u, v := FIRST.Unmasking(Verbatim), SECOND.Unmasking(Verbatim);
    BothUnmasked("Foo");
    assert "Foo" == "" + u.needle + "";
    OneHit(u, "", "");
    assert "" + u.Shaped(u.needle) + "" == "pqa";
    NoBracketNoSpan("pqa");
    LateStart(v, "pqa");
    BothUnmasked("bc");
    NoFirstCharUntouched(u, "bc");
    NoFirstCharUntouched(v, "bc");
  }

  lemma {:induction false} InterferenceIsWellBehaved()
    ensures forall kw | kw in [FIRST, SECOND] :: kw.Valid() && SpanNeutral(kw.Unmasking(Verbatim))
    ensures OverlapFree([FIRST, SECOND])
    ensures HeldSpan("Foo") == None && SafeLen("Foo", [FIRST, SECOND]) == 3
  {
    hide SpanNeutral, NoOverlap, IsViable, SafeLen;
    assert !IsCategoryChar(FIRST.matchText[0]) && !IsCategoryChar(SECOND.matchText[0]);
    WordMatchIsNeutral(FIRST, Verbatim);
    WordMatchIsNeutral(SECOND, Verbatim);
    forall a, b | a in [FIRST, SECOND] && b in [FIRST, SECOND] ensures NoOverlap(a, b) {
      NoCommonLetter(a, b);
    }
    assert LastOpen("Foo") == 3 by {
      assert '[' !in "Foo";
    }
    NothingHeld("Foo", [FIRST, SECOND]);
  }

  /** Two well-behaved keywords that interfere: what replaces the first alias ends in `a`, and the
      text that follows turns that into the second alias. The stream shows `pqabc`; the whole text
      would have become `pqzzz`. */
  lemma {:induction false} InterferenceBreaksTheCut(k: Sealer)
    ensures var ks := [FIRST, SECOND];
            && (forall kw | kw in ks :: kw.Valid() && SpanNeutral(kw.Unmasking(Verbatim)))
            && OverlapFree(ks) && HeldSpanFits("Foo", "bc")
            && !CutHolds(k, ks, Verbatim, "Foo", "bc")
  {
    hide SafeLen, DetokenizeFrom, SpanLen, Unmask, HeldSpan, SpanNeutral, NoOverlap, Recovered;
    InterferenceIsWellBehaved();
    InterferenceWhole();
    InterferenceParts();
    assert "Foo"[..3] == "Foo" && "Foo"[3..] + "bc" == "bc";
    BracketFreeRecovers(k, Verbatim, "pqa");
    BracketFreeRecovers(k, Verbatim, "bc");
    BracketFreeRecovers(k, Verbatim, "pqzzz");
    assert ("pqa" + "bc")[2] != "pqzzz"[2];
    forall t ensures Rewritten(k, [FIRST, SECOND], Verbatim, t) == Recovered(k, Verbatim, Unmask([FIRST, SECOND], Verbatim, t)) {
      RewrittenIs(k, [FIRST, SECOND], Verbatim, t);
    }
  }

  lemma {:induction false} RewrittenIs(k: Sealer, ks: seq<Keyword>, r: Rendering, t: string)
    ensures Rewritten(k, ks, r, t) == Recovered(k, r, Unmask(ks, r, t))
  {
    hide Unmask, DetokenizeFrom;
  }

  lemma {:induction false} NoCommonLetter(a: Keyword, b: Keyword)
    requires a.caseSensitive && b.caseSensitive && b.alias != ""
    requires forall i | 0 < i < |a.alias| :: a.alias[i] != b.alias[0]
    ensures NoOverlap(a, b)
  {
    forall n | 0 < n < |a.alias| && n < |b.alias|
      ensures !SameText(a.alias[|a.alias| - n..], b.alias[..n], true)
    {
      FirstCharDiffers(a.alias[|a.alias| - n..], b.alias[..n]);
    }
  }

  lemma {:induction false} FirstCharDiffers(x: string, y: string)
    requires x != "" && y != "" && x[0] != y[0]
    ensures !SameText(x, y, true)
  {
  }

  lemma {:induction false} LateStart(w: Swap, t: string)
    requires w.caseSensitive && |t| == |w.needle| > 0 && t != w.needle && SpanLen(t) == 0 && t[0] != '['
    ensures SubstituteOutsideSpans(w, t) == t
  {
    hide SpanLen, SubstituteOutsideSpans, Render;
    OneStep(w, t);
    ExactIsEqual(t, w.needle);
    assert t[..|t|] == t;
    ShortTextUntouched(w, t[1..]);
    assert t == t[..1] + t[1..];
  }

  const CATEGORY := Keyword("AAA", "foo", true)

  lemma {:induction false} CategoryUnmasked(post: string)
    requires '[' !in post && 'f' !in post && |post| > 1
    ensures Unmask([CATEGORY], Verbatim, "[foo" + post) == "[AAA" + post
  {
    hide SubstituteOutsideSpans, SpanLen, Unmask;
    var w := CATEGORY.Unmasking(Verbatim);
    var t := "[foo" + post;
    OneKeyword(CATEGORY, Verbatim, t);
    assert t == "[" + w.needle + post;
    NotASpan(t);
    assert t[0..] == t;
    OneHit(w, "[", post);
    assert "[" + w.Shaped(w.needle) + post == "[AAA" + post;
  }

  lemma {:induction false} FrontBracketNotHeld(text: string)
    requires text != "" && text[0] == '[' && '[' !in text[1..] && !IsViable(text)
    ensures HeldSpan(text) == None
  {
    hide IsViable, LastOpen;
    assert forall i | 0 < i < |text| :: text[i] == text[1..][i - 1];
    assert text[0..] == text;
  }

  lemma {:induction false} CategoryIsFine()
    ensures CATEGORY.Valid() && OverlapFree([CATEGORY])
  {
    hide NoOverlap;
    NoCommonLetter(CATEGORY, CATEGORY);
  }

  lemma {:induction false} OpenText()
    ensures NotCategoryYet("[foo:TOKEN_a") && '[' !in "[foo:TOKEN_a"[1..]
    ensures forall i | 0 <= i < 12 < i + 3 :: "[foo:TOKEN_a"[i] != 'f'
  {
    assert "[foo:TOKEN_a"[1..] == "foo:TOKEN_a";
  }

  /** A bracket before a small letter. */
  predicate NotCategoryYet(t: string) { |t| > 2 && t[0] == '[' && IsLower(t[1]) }

  lemma {:induction false} CategoryCut()
    ensures CATEGORY.Valid() && OverlapFree([CATEGORY])
    ensures HeldSpan("[foo:TOKEN_a") == None && SafeLen("[foo:TOKEN_a", [CATEGORY]) == 12
  {
    hide SpanLen, IsViable, SafeLen, NoOverlap, OverlapFree, Keyword.Valid, HeldSpan, LastOpen;
    var text := "[foo:TOKEN_a";
    CategoryIsFine();
    OpenText();
    NotASpan(text);
    FrontBracketNotHeld(text);
    NothingHeld(text, [CATEGORY]);
  }

  lemma {:induction false} CategoryCompletesSpan()
    ensures Unmask([CATEGORY], Verbatim, "[foo:TOKEN_a") == "[AAA:TOKEN_a" && IsViable("[AAA:TOKEN_a")
    ensures Unmask([CATEGORY], Verbatim, "[foo:TOKEN_a" + "]") == "[AAA:TOKEN_a]" && IsSpan("[AAA:TOKEN_a]")
  {
    hide Unmask, IsSpan, IsViable;
    CategoryUnmasked(":TOKEN_a");
    CategoryUnmasked(":TOKEN_a]");
    assert "[foo" + ":TOKEN_a" == "[foo:TOKEN_a" && "[AAA" + ":TOKEN_a" == "[AAA:TOKEN_a";
    assert "[foo" + ":TOKEN_a]" == "[foo:TOKEN_a" + "]" && "[AAA" + ":TOKEN_a]" == "[AAA:TOKEN_a]";
    assert SpanOf("AAA", "a") == "[AAA:TOKEN_a]";
    BuiltSpanIsSpan("AAA", "a");
    SpanPrefixesAreViable("[AAA:TOKEN_a]", 12);
    assert "[AAA:TOKEN_a]"[..12] == "[AAA:TOKEN_a";
  }

  /** A keyword that turns text into a category: the alias keeps the stream from seeing a span
      coming, and the span is only there once the alias has been replaced. */
  lemma {:induction false} CompletedSpanBreaksTheCut()
    ensures CATEGORY.Valid() && OverlapFree([CATEGORY]) && HeldSpanFits("[foo:TOKEN_a", "]")
    ensures !CutHolds(Eraser(), [CATEGORY], Verbatim, "[foo:TOKEN_a", "]")
  {
    hide SafeLen, DetokenizeFrom, SpanLen, Unmask, HeldSpan, NoOverlap, Recovered, IsSpan, IsViable;
    var text, open, span := "[foo:TOKEN_a", "[AAA:TOKEN_a", "[AAA:TOKEN_a]";
    CategoryCut();
    CategoryCompletesSpan();
    ErasedSpan(Verbatim, span);
    ViableErasedLen(Verbatim, open);
    assert text[..|text|] == text && text[|text|..] + "]" == "]";
    forall t ensures Rewritten(Eraser(), [CATEGORY], Verbatim, t) == Recovered(Eraser(), Verbatim, Unmask([CATEGORY], Verbatim, t)) {
      RewrittenIs(Eraser(), [CATEGORY], Verbatim, t);
    }
    ErasureSucceeds(Verbatim, open, 0);
    ErasureSucceeds(Verbatim, span, 0);
  }

  lemma {:induction false} NotASpan(t: string)
    requires |t| > 2 && t[0] == '[' && IsLower(t[1])
    ensures SpanLen(t) == 0 && !IsViable(t)
  {
    hide SpanLen;
    assert t[1..][1..] == t[2..];
    WalkDead(t[2..]);
    assert Walk(Before, t) == Walk(Step(CategoryStart, t[1]), t[2..]);
    var n := SpanLen(t);
    if n > 0 {
      SecondChar(t, n);
    }
  }

  lemma {:induction false} SecondChar(t: string, n: nat)
    requires n <= |t| && IsSpan(t[..n])
    ensures n > 1 && IsCategoryChar(t[1])
  {
    var c, p := SpanParts(t[..n]);
    assert t[..n][1] == c[0];
  }
}
