/** Which sets of keywords meet the conditions of the streaming theorems, read off their texts. */
module Policies {
  import opened Text
  import opened TokenSpan
  import opened Detokenize
  import opened Keywords
  import opened Unmasking
  import opened StreamingCut
  import opened CutLimits
  import opened Rewriter
  import opened StreamRefinement

  /** In any case: no end of the text begins the alias, no beginning of it ends the alias, and the text
      does not lie within the alias. */
  predicate Separate(text: string, alias: string) {
    && (forall n | 0 < n < |alias| && n <= |text| :: !SameText(text[|text| - n..], alias[..n], false))
    && (forall n | 0 < n < |alias| && n <= |text| :: !SameText(text[..n], alias[|alias| - n..], false))
    && (forall n, m | 0 <= n && m == n + |text| <= |alias| :: !SameText(text, alias[n..m], false))
  }

  /** A match text that never completes a span: free of brackets and with a character no span holds, or
      an ordinary word. */
  predicate IsHarmless(kw: Keyword) {
    (NoBrackets(kw.matchText) && HasOuterChar(kw.matchText)) || IsWord(kw)
  }

  /** What a policy's author can check: every match text is harmless, no tail of an alias begins an alias,
      and what an earlier keyword restores is separate from the aliases restored later. */
  ghost predicate Readable(ks: seq<Keyword>) {
    && (forall kw | kw in ks :: kw.Valid() && IsHarmless(kw))
    && OverlapFree(ks)
    && (forall i, j | 0 <= i < j < |ks| :: NeedsNoEscape(ks[i].matchText) && Separate(ks[i].matchText, ks[j].alias))
  }

  /** Putting a text into some case changes no more than the case. */
  lemma {:induction false} CasedIsSame(s: string, p: CasePattern)
    ensures |ApplyCasePattern(s, p)| == |s|
    ensures forall i | 0 <= i < |s| :: ToLower(ApplyCasePattern(s, p)[i]) == ToLower(s[i])
    ensures NeedsNoEscape(s) ==> NeedsNoEscape(ApplyCasePattern(s, p))
  {
    var t := ApplyCasePattern(s, p);
    forall i | 0 <= i < |s| ensures t[i] == s[i] || t[i] == ToLower(s[i]) || t[i] == ToUpper(s[i]) {
    }
    forall i | 0 <= i < |s| ensures EscapeChar(s[i]) == [s[i]] ==> EscapeChar(t[i]) == [t[i]] {
      LettersNeedNoEscape(s[i]);
    }
  }

  lemma {:induction false} LettersNeedNoEscape(c: char)
    ensures EscapeChar(c) == [c] ==> EscapeChar(ToLower(c)) == [ToLower(c)] && EscapeChar(ToUpper(c)) == [ToUpper(c)]
  {
  }

  /** A keyword writes its match text, up to case. */
  lemma {:induction false} WritesItsText(kw: Keyword, r: Rendering, found: string)
    requires NeedsNoEscape(kw.matchText)
    ensures var written := kw.Unmasking(r).Shaped(found);
            && |written| == |kw.matchText|
            && forall i | 0 <= i < |written| :: ToLower(written[i]) == ToLower(kw.matchText[i])
  {
    hide EscapeChar;
    var text := if kw.caseSensitive then kw.matchText else ApplyCasePattern(kw.matchText, DetectCasePattern(found));
    CasedIsSame(kw.matchText, DetectCasePattern(found));
    EscapeOfPlain(text);
  }

  /** Texts that differ even without regard to case differ however they are cased. */
  lemma {:induction false} StillDifferent(written: string, text: string, y: string, cs: bool)
    requires !SameText(text, y, false) && |written| == |text|
    requires forall i | 0 <= i < |text| :: ToLower(written[i]) == ToLower(text[i])
    ensures !SameText(written, y, cs)
  {
  }

  lemma {:induction false} EndIsSeparate(written: string, text: string, alias: string, n: nat, cs: bool)
    requires 0 < n < |alias| && n <= |written| == |text| && Separate(text, alias)
    requires forall i | 0 <= i < |text| :: ToLower(written[i]) == ToLower(text[i])
    ensures !SameText(written[|written| - n..], alias[..n], cs)
  {
    StillDifferent(written[|written| - n..], text[|text| - n..], alias[..n], cs);
  }

  lemma {:induction false} BeginningIsSeparate(written: string, text: string, alias: string, n: nat, cs: bool)
    requires 0 < n < |alias| && n <= |written| == |text| && Separate(text, alias)
    requires forall i | 0 <= i < |text| :: ToLower(written[i]) == ToLower(text[i])
    ensures !SameText(written[..n], alias[|alias| - n..], cs)
  {
    StillDifferent(written[..n], text[..n], alias[|alias| - n..], cs);
  }

  lemma {:induction false} WholeIsSeparate(written: string, text: string, alias: string, n: nat, m: nat, cs: bool)
    requires m == n + |written| <= |alias| && |written| == |text| && Separate(text, alias)
    requires forall i | 0 <= i < |text| :: ToLower(written[i]) == ToLower(text[i])
    ensures !SameText(written, alias[n..m], cs)
  {
    StillDifferent(written, text, alias[n..m], cs);
  }

  lemma {:induction false} SeparateIsDetached(later: Keyword, earlier: Keyword, r: Rendering)
    requires NeedsNoEscape(earlier.matchText) && Separate(earlier.matchText, later.alias)
    ensures Detached(later.Unmasking(r), earlier.Unmasking(r))
  {
    hide NeedsNoEscape, Separate, SameText, Swap.Shaped;
    var v, w, text, alias := later.Unmasking(r), earlier.Unmasking(r), earlier.matchText, later.alias;
    forall found | w.Matches(found) ensures Apart(v, w.Shaped(found)) {
      var written := w.Shaped(found);
      WritesItsText(earlier, r, found);
      forall n | 0 < n < |alias| && n <= |written|
        ensures !SameText(written[|written| - n..], alias[..n], v.caseSensitive)
      {
        EndIsSeparate(written, text, alias, n, v.caseSensitive);
      }
      forall n | 0 < n < |alias| && n <= |written|
        ensures !SameText(written[..n], alias[|alias| - n..], v.caseSensitive)
      {
        BeginningIsSeparate(written, text, alias, n, v.caseSensitive);
      }
      forall n, m | 0 <= n && m == n + |written| <= |alias| ensures !SameText(written, alias[n..m], v.caseSensitive) {
        WholeIsSeparate(written, text, alias, n, m, v.caseSensitive);
      }
    }
  }

  /** A policy whose texts keep apart is one that streams as if rewritten in one piece, so the streaming
      theorems hold for it. */
  lemma {:induction false} ReadableIsWellBehaved(ses: Session)
    requires Readable(ses.keywords)
    ensures WellBehaved(ses)
  {
    var ks := ses.keywords;
    forall r: Rendering ensures Compatible(ks, r) {
      forall kw | kw in ks ensures SpanNeutral(kw.Unmasking(r)) {
        if IsWord(kw) {
          WordMatchIsNeutral(kw, r);
        } else {
          OuterMatchIsNeutral(kw, r);
        }
      }
      forall i, j | 0 <= i < j < |ks| ensures Detached(ks[j].Unmasking(r), ks[i].Unmasking(r)) {
        SeparateIsDetached(ks[j], ks[i], r);
      }
    }
  }

  /** In particular one keyword, whatever its match text restores to, as long as its alias does not
      overlap itself. */
  lemma {:induction false} OneKeywordIsWellBehaved(ses: Session, kw: Keyword)
    requires ses.keywords == [kw] && kw.Valid() && NoOverlap(kw, kw) && IsHarmless(kw)
    ensures WellBehaved(ses)
  {
    ReadableIsWellBehaved(ses);
  }

  /** Letters that do not occur, in either case. */
  predicate Lacks(s: string, c: char) { forall i | 0 <= i < |s| :: ToLower(s[i]) != ToLower(c) }

  lemma {:induction false} LettersKeepSeparate(text: string, alias: string)
    requires text != "" && alias != "" && Lacks(text, alias[0]) && Lacks(alias, text[0])
    ensures Separate(text, alias)
  {
    forall n | 0 < n < |alias| && n <= |text|
      ensures !SameText(text[|text| - n..], alias[..n], false) && !SameText(text[..n], alias[|alias| - n..], false)
    {
      assert text[|text| - n..][0] == text[|text| - n] && alias[|alias| - n..][0] == alias[|alias| - n];
      assert text[..n][0] == text[0] && alias[..n][0] == alias[0];
    }
  }

  lemma {:induction false} LettersKeepFree(a: Keyword, b: Keyword)
    requires !a.caseSensitive && !b.caseSensitive && a.alias != "" && b.alias != "" && Lacks(a.alias[1..], b.alias[0])
    ensures NoOverlap(a, b)
  {
    forall n | 0 < n < |a.alias| && n < |b.alias| ensures !SameText(a.alias[|a.alias| - n..], b.alias[..n], false) {
      assert a.alias[|a.alias| - n..][0] == a.alias[1..][|a.alias| - n - 1] && b.alias[..n][0] == b.alias[0];
    }
  }

  const DRINK := Keyword("Coca-Cola", "Brandex", false)
  const PERSON := Keyword("Jane Roe", "Kestrel", false)

  lemma {:induction false} DrinkIsWord()
    ensures DRINK.Valid() && IsWord(DRINK) && NeedsNoEscape(DRINK.matchText)
  {
    hide EscapeChar;
    assert IsLower(DRINK.matchText[1]);
    PayloadIsPlain(DRINK.matchText);
  }

  lemma {:induction false} PersonHasSpace()
    ensures PERSON.Valid() && NoBrackets(PERSON.matchText) && HasOuterChar(PERSON.matchText)
  {
    assert !IsInnerChar(PERSON.matchText[4]);
  }

  lemma {:induction false} AliasesAreFree()
    ensures Lacks("Brandex"[1..], 'B') && Lacks("Brandex"[1..], 'K') && Lacks("Kestrel"[1..], 'B') && Lacks("Kestrel"[1..], 'K')
    ensures Lacks("Coca-Cola", 'K') && Lacks("Kestrel", 'C')
  {
  }

  /** There are such policies of several keywords, matched without regard to case: an ordinary word, and
      a name of two words. */
  lemma {:induction false} ReadablePoliciesExist()
    ensures Readable([DRINK, PERSON])
  {
    hide NoOverlap, Separate, SameText, Lacks, NeedsNoEscape, NoBrackets, HasOuterChar, IsWord, Keyword.Valid;
    DrinkIsWord();
    PersonHasSpace();
    AliasesAreFree();
    LettersKeepSeparate(DRINK.matchText, PERSON.alias);
    LettersKeepFree(DRINK, DRINK);
    LettersKeepFree(DRINK, PERSON);
    LettersKeepFree(PERSON, DRINK);
    LettersKeepFree(PERSON, PERSON);
  }
}
