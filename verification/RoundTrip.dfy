/** Masking a keyword and unmasking it again, alone and around a scan. */
module RoundTrip {
  import opened Text
  import opened TokenSpan
  import opened Sealing
  import opened Segments
  import opened Detokenize
  import opened Keywords
  import opened StreamingCut
  import opened Scan
  import opened ScanProofs
  import CutLimits

  // ---------- letter case ----------

  predicate LetterAfterFirst(s: string) { exists i | 1 <= i < |s| :: IsLetter(s[i]) }

  lemma {:induction false} CaseOfLower(s: string)
    requires HasLetter(s)
    ensures DetectCasePattern(Lower(s)) == Lowercase
  {
    var t := Lower(s);
    var i :| 0 <= i < |s| && IsLetter(s[i]);
    assert IsLetter(t[i]) && !IsUpper(t[i]);
    assert forall j | 0 <= j < |t| && IsLetter(t[j]) :: IsLower(t[j]);
  }

  lemma {:induction false} CaseOfUpper(s: string)
    requires HasLetter(s)
    ensures DetectCasePattern(Upper(s)) == Uppercase
  {
    var t := Upper(s);
    var i :| 0 <= i < |s| && IsLetter(s[i]);
    assert IsLetter(t[i]);
    assert forall j | 0 <= j < |t| && IsLetter(t[j]) :: IsUpper(t[j]);
  }

  lemma {:induction false} CaseOfTitle(s: string)
    requires s != "" && IsLetter(s[0])
    ensures DetectCasePattern(ApplyCasePattern(s, Title)) == if LetterAfterFirst(s) then Title else Uppercase
  {
    var t := ApplyCasePattern(s, Title);
    assert IsUpper(t[0]) && |t| == |s|;
    assert forall j | 1 <= j < |s| :: t[j] == ToLower(s[j]);
    if LetterAfterFirst(s) {
      var i :| 1 <= i < |s| && IsLetter(s[i]);
      assert IsLower(t[i]) && IsLetter(t[i]);
    } else {
      forall j | 0 <= j < |t| && IsLetter(t[j]) ensures IsUpper(t[j]) {
        assert j > 0 ==> !IsLetter(s[j]);
      }
    }
  }

  /** The case an alias is written in can be read back, except that a title-cased alias with a single
      letter reads as upper case: for Title, exactly when a letter follows the first. */
  lemma {:induction false} ShapedAliasShowsCase(kw: Keyword, p: CasePattern)
    requires kw.Valid() && p != Mixed
    ensures DetectCasePattern(ApplyCasePattern(kw.alias, p)) == p <==> (p == Title ==> LetterAfterFirst(kw.alias))
  {
    assert IsLetter(kw.alias[0]);
    match p
    case Lowercase => CaseOfLower(kw.alias);
    case Uppercase => CaseOfUpper(kw.alias);
    case Title => CaseOfTitle(kw.alias);
  }

  /** A lower, upper or title cased variant of a text is the text put into that case. */
  lemma {:induction false} CaseRestores(o: string, s: string)
    requires SameText(o, s, false) && DetectCasePattern(o) != Mixed
    ensures ApplyCasePattern(s, DetectCasePattern(o)) == o
  {
    var t := ApplyCasePattern(s, DetectCasePattern(o));
    forall i | 0 <= i < |o| ensures t[i] == o[i] {
      assert SameChar(o[i], s[i], false);
    }
  }

  lemma {:induction false} CaseKeepsText(s: string, p: CasePattern)
    ensures SameText(ApplyCasePattern(s, p), s, false)
  {
  }

  // ---------- one keyword ----------

  /** What an occurrence of the match text has become after masking and unmasking. */
  function Back(kw: Keyword, found: string): string {
    kw.Unmasking(Verbatim).Shaped(kw.Masking().Shaped(found))
  }

  /** The text with every occurrence of the match text in the case it comes back in. */
  function Recased(kw: Keyword, t: string): string
    decreases |t|
  {
    if t == "" then ""
    else if kw.Masking().Hit(t) then Back(kw, t[..|kw.matchText|]) + Recased(kw, t[|kw.matchText|..])
    else [t[0]] + Recased(kw, t[1..])
  }

  predicate Absent(kw: Keyword, t: string) {
    forall i | 0 <= i <= |t| :: !OccursAt(t, i, kw.alias, kw.caseSensitive)
  }

  lemma {:induction false} AliasStaysItself(kw: Keyword, found: string)
    ensures SameText(kw.Masking().Shaped(found), kw.alias, kw.caseSensitive)
  {
    if kw.caseSensitive {
      CutLimits.SameAsItself(kw.alias, true);
    } else {
      CaseKeepsText(kw.alias, DetectCasePattern(found));
    }
  }

  /** The beginning of a masked text that ends an alias was there before masking. */
  lemma {:induction false} MaskedHead(kw: Keyword, t: string, y: string)
    requires kw.Valid() && NoOverlap(kw, kw) && y <= Substitute(kw.Masking(), t)
    requires 0 < |y| < |kw.alias| && SameText(y, kw.alias[|kw.alias| - |y|..], kw.caseSensitive)
    ensures y <= t
    decreases |t|
  {
    hide SameText, NoOverlap, Substitute;
    var m := kw.Masking();
    MaskStep(kw, t);
    if t != "" {
      if m.Hit(t) {
        var a := m.Shaped(t[..|kw.matchText|]);
        AliasStaysItself(kw, t[..|kw.matchText|]);
        SameSize(a, kw.alias, kw.caseSensitive);
        assert a[..|y|] == y;
        AliasBorder(kw, a, y);
      } else if |y| > 1 {
        var y' := y[1..];
        SameTextSlice(y, kw.alias[|kw.alias| - |y|..], kw.caseSensitive, 1, |y|);
        assert y[1..|y|] == y' && kw.alias[|kw.alias| - |y|..][1..|y|] == kw.alias[|kw.alias| - |y'|..];
        assert y' <= Substitute(m, t[1..]);
        MaskedHead(kw, t[1..], y');
        assert y == [t[0]] + y' && t == [t[0]] + t[1..];
      } else {
        assert y == [t[0]];
      }
    }
  }

  lemma {:induction false} MaskStep(kw: Keyword, t: string)
    ensures t == "" ==> Substitute(kw.Masking(), t) == ""
    ensures t != "" ==>
              Substitute(kw.Masking(), t) == (
                if kw.Masking().Hit(t) then kw.Masking().Shaped(t[..|kw.matchText|]) + Substitute(kw.Masking(), t[|kw.matchText|..])
                else [t[0]] + Substitute(kw.Masking(), t[1..]))
  {
    hide SameText, Render;
  }

  lemma {:induction false} AliasBorder(kw: Keyword, a: string, y: string)
    requires SameText(a, kw.alias, kw.caseSensitive) && |a| == |kw.alias| && 0 < |y| < |a| && a[..|y|] == y
    requires SameText(y, kw.alias[|kw.alias| - |y|..], kw.caseSensitive)
    ensures !NoOverlap(kw, kw)
  {
    hide SameText;
    SameTextSlice(a, kw.alias, kw.caseSensitive, 0, |y|);
    assert a[0..|y|] == y && kw.alias[0..|y|] == kw.alias[..|y|];
    FoldChain(y, kw.alias[|kw.alias| - |y|..], kw.alias[..|y|], kw.caseSensitive, kw.caseSensitive);
  }

  /** Masking makes no alias that begins in text it has left alone. */
  lemma {:induction false} NoNewAlias(kw: Keyword, t: string)
    requires kw.Valid() && NoOverlap(kw, kw) && t != "" && Absent(kw, t) && !kw.Masking().Hit(t)
    ensures !kw.Unmasking(Verbatim).Hit([t[0]] + Substitute(kw.Masking(), t[1..]))
  {
    hide SameText, NoOverlap, Substitute;
    var w := [t[0]] + Substitute(kw.Masking(), t[1..]);
    var n := |kw.alias|;
    if kw.Unmasking(Verbatim).Hit(w) {
      var y := w[1..n];
      assert w[..n][1..n] == y && kw.alias[1..n] == kw.alias[n - |y|..];
      SameTextSlice(w[..n], kw.alias, kw.caseSensitive, 1, n);
      assert y <= Substitute(kw.Masking(), t[1..]);
      MaskedHead(kw, t[1..], y);
      AliasAtFront(kw, t, w, y);
    }
  }

  lemma {:induction false} AliasAtFront(kw: Keyword, t: string, w: string, y: string)
    requires kw.Valid() && t != "" && |w| >= |kw.alias| && w[0] == t[0] && y == w[1..|kw.alias|] && y <= t[1..]
    requires SameText(w[..|kw.alias|], kw.alias, kw.caseSensitive)
    ensures !Absent(kw, t)
  {
    hide SameText;
    assert t[0..0 + |kw.alias|] == w[..|kw.alias|];
    assert OccursAt(t, 0, kw.alias, kw.caseSensitive);
  }

  /** Unmasking undoes masking, up to letter case: when the alias does not overlap itself and the text
      does not hold it, the text comes back with each occurrence of the match text in the case it
      comes back in. */
  lemma {:induction false} UnmaskingUndoesMasking(kw: Keyword, t: string)
    requires kw.Valid() && NoOverlap(kw, kw) && Absent(kw, t)
    ensures Substitute(kw.Unmasking(Verbatim), Substitute(kw.Masking(), t)) == Recased(kw, t)
    decreases |t|
  {
    hide SameText, NoOverlap, Substitute, Absent, Render;
    MaskStep(kw, t);
    var m, u := kw.Masking(), kw.Unmasking(Verbatim);
    if t == "" {
      NothingToSubstitute(u, "");
    } else if m.Hit(t) {
      var found, rest := t[..|kw.matchText|], t[|kw.matchText|..];
      var a := m.Shaped(found);
      AbsentPart(kw, t, |kw.matchText|, |t|);
      assert t[|kw.matchText|..|t|] == rest;
      UnmaskingUndoesMasking(kw, rest);
      AliasStaysItself(kw, found);
      SameSize(a, kw.alias, kw.caseSensitive);
      var w := a + Substitute(m, rest);
      assert w[..|kw.alias|] == a && w[|kw.alias|..] == Substitute(m, rest);
      SubstituteHit(u, w);
    } else {
      AbsentPart(kw, t, 1, |t|);
      assert t[1..|t|] == t[1..];
      UnmaskingUndoesMasking(kw, t[1..]);
      NoNewAlias(kw, t);
      var w := [t[0]] + Substitute(m, t[1..]);
      SubstituteMiss(u, w);
      assert w[1..] == Substitute(m, t[1..]);
    }
  }

  lemma {:induction false} SubstituteMiss(u: Swap, w: string)
    requires w != "" && !u.Hit(w)
    ensures Substitute(u, w) == [w[0]] + Substitute(u, w[1..])
  {
    hide SameText, Render;
  }

  lemma {:induction false} OccursInPart(t: string, a: nat, b: nat, i: nat, needle: string, cs: bool)
    requires a <= b <= |t| && i <= b - a && i + |needle| <= b - a
    ensures t[a..b][i..i + |needle|] == t[a + i..a + i + |needle|]
    ensures OccursAt(t[a..b], i, needle, cs) <==> OccursAt(t, a + i, needle, cs)
  {
    hide SameText;
    SliceOfSlice(t, a, b, i, i + |needle|);
  }

  /** A case-sensitive keyword gives every text back. */
  lemma {:induction false} CaseSensitiveRestores(kw: Keyword, t: string)
    requires kw.caseSensitive
    ensures Recased(kw, t) == t
  {
    hide SameText, Back, Recased, Replaced;
    RecasedExactly(kw, t);
    ReplacedMatch(kw, t);
    forall f | f in Replaced(kw, t) ensures Back(kw, f) == f {
      ExactComesBack(kw, f);
    }
  }

  /** A text put into title case reads as title, upper or lower case, never as mixed. */
  lemma {:induction false} TitleIsNeverMixed(s: string)
    requires HasLetter(s)
    ensures DetectCasePattern(ApplyCasePattern(s, Title)) != Mixed
  {
    var t := ApplyCasePattern(s, Title);
    var i :| 0 <= i < |s| && IsLetter(s[i]);
    assert forall j | 1 <= j < |s| :: t[j] == ToLower(s[j]);
    assert IsLetter(t[i]) && (IsUpper(t[0]) || !IsLetter(t[0]));
  }

  lemma {:induction false} ShownCaseIsNotMixed(s: string, p: CasePattern)
    requires HasLetter(s) && p != Mixed
    ensures DetectCasePattern(ApplyCasePattern(s, p)) != Mixed
  {
    match p
    case Lowercase => CaseOfLower(s);
    case Uppercase => CaseOfUpper(s);
    case Title => TitleIsNeverMixed(s);
  }

  lemma {:induction false} LettersAlike(x: string, y: string)
    requires SameText(x, y, false)
    ensures HasLetter(x) <==> HasLetter(y)
  {
    if i :| 0 <= i < |x| && IsLetter(x[i]) {
      assert SameChar(x[i], y[i], false) && IsLetter(y[i]);
    }
    if i :| 0 <= i < |y| && IsLetter(y[i]) {
      assert SameChar(x[i], y[i], false) && IsLetter(x[i]);
    }
  }

  /** Where there is no letter there is no case. */
  lemma {:induction false} NoLetterNoCase(found: string, s: string, p: CasePattern)
    requires SameText(found, s, false) && !HasLetter(found)
    ensures ApplyCasePattern(s, p) == found
  {
    LettersAlike(found, s);
    var t := ApplyCasePattern(s, p);
    forall i | 0 <= i < |s| ensures t[i] == found[i] {
      assert SameChar(found[i], s[i], false) && !IsLetter(s[i]) && !IsLetter(found[i]);
    }
  }

  /** What an occurrence has to show for it to come back: no letters; or a case of its own that the
      alias can show; or, in mixed case, the match text to the letter and an alias in mixed case. */
  predicate CaseSurvives(kw: Keyword, found: string) {
    !HasLetter(found)
    || match DetectCasePattern(found)
       case Mixed => DetectCasePattern(kw.alias) == Mixed && found == kw.matchText
       case Title => LetterAfterFirst(kw.alias)
       case _ => true
  }

  /** Without regard to case, exactly which occurrences come back as they were. */
  lemma {:induction false} CaseInsensitiveRestores(kw: Keyword, found: string)
    requires kw.Valid() && !kw.caseSensitive && SameText(found, kw.matchText, false)
    ensures Back(kw, found) == found <==> CaseSurvives(kw, found)
  {
    hide SameText, DetectCasePattern, ApplyCasePattern, HasLetter;
    var p, m := DetectCasePattern(found), kw.matchText;
    LettersAlike(found, m);
    if !HasLetter(found) {
      NoLetterNoCase(found, m, DetectCasePattern(ApplyCasePattern(kw.alias, p)));
    } else if p == Mixed {
      MixedIsVerbatim(kw.alias);
      MixedIsVerbatim(m);
      if DetectCasePattern(kw.alias) != Mixed {
        ShownCaseIsNotMixed(m, DetectCasePattern(kw.alias));
      }
    } else {
      ShapedAliasShowsCase(kw, p);
      CaseRestores(found, m);
      if p == Title && !LetterAfterFirst(kw.alias) {
        LoneLetterIsUpper(kw, m, found);
      }
    }
  }

  lemma {:induction false} MixedIsVerbatim(s: string)
    ensures ApplyCasePattern(s, Mixed) == s
  {
  }

  /** A title-cased alias with a single letter reads as upper case, so a title-cased occurrence is shouted. */
  lemma {:induction false} LoneLetterIsUpper(kw: Keyword, m: string, found: string)
    requires kw.Valid() && !LetterAfterFirst(kw.alias) && HasLetter(m) && DetectCasePattern(found) == Title
    ensures DetectCasePattern(ApplyCasePattern(kw.alias, Title)) == Uppercase
    ensures ApplyCasePattern(m, Uppercase) != found
  {
    CaseOfTitle(kw.alias);
    CaseOfUpper(m);
  }

  /** In mixed case the condition fails for good texts: matched without regard to case, `Coca-Cola`
      masked as `Brandex` comes back as `Coca-cola`. */
  lemma {:induction false} MixedCaseIsNotRestored()
    ensures var kw := Keyword("Coca-Cola", "Brandex", false);
            kw.Valid() && !CaseSurvives(kw, "Coca-Cola") && Back(kw, "Coca-Cola") == "Coca-cola"
  {
    hide DetectCasePattern, ApplyCasePattern;
    CocaColaIsMixed();
    BrandexIsTitle();
    TitledCocaCola();
    MixedIsVerbatim("Brandex");
  }

  lemma {:induction false} CocaColaIsMixed()
    ensures HasLetter("Coca-Cola") && DetectCasePattern("Coca-Cola") == Mixed
  {
    var m := "Coca-Cola";
    assert IsUpper(m[0]) && IsLower(m[1]) && IsUpper(m[5]);
  }

  lemma {:induction false} BrandexIsTitle()
    ensures DetectCasePattern("Brandex") == Title
  {
    var a := "Brandex";
    assert IsUpper(a[0]) && IsLower(a[1]);
  }

  lemma {:induction false} TitledCocaCola()
    ensures ApplyCasePattern("Coca-Cola", Title) == "Coca-cola"
  {
    assert "Coca-Cola"[1..] == "oca-Cola";
    assert Lower("oca-Cola") == "oca-cola";
  }

  // ---------- whole texts, exactly ----------

  /** The occurrences that masking replaces, from left to right. */
  function Replaced(kw: Keyword, t: string): seq<string>
    decreases |t|
  {
    if t == "" then []
    else if kw.Masking().Hit(t) then [t[..|kw.matchText|]] + Replaced(kw, t[|kw.matchText|..])
    else Replaced(kw, t[1..])
  }

  lemma {:induction false} BackKeepsLength(kw: Keyword, found: string)
    requires |found| == |kw.matchText|
    ensures |Back(kw, found)| == |found|
  {
  }

  lemma {:induction false} RecasedKeepsLength(kw: Keyword, t: string)
    ensures |Recased(kw, t)| == |t|
    decreases |t|
  {
    hide Back, SameText;
    if t != "" {
      if kw.Masking().Hit(t) {
        BackKeepsLength(kw, t[..|kw.matchText|]);
        RecasedKeepsLength(kw, t[|kw.matchText|..]);
      } else {
        RecasedKeepsLength(kw, t[1..]);
      }
    }
  }

  lemma {:induction false} SplitEqual(a: string, b: string, x: string, y: string)
    requires |a| == |x|
    ensures a + b == x + y <==> a == x && b == y
  {
    if a + b == x + y {
      assert a == (a + b)[..|a|] && x == (x + y)[..|a|];
      assert b == (a + b)[|a|..] && y == (x + y)[|a|..];
    }
  }

  /** A recased text is the text exactly when every occurrence that was replaced comes back. */
  lemma {:induction false} RecasedExactly(kw: Keyword, t: string)
    ensures Recased(kw, t) == t <==> forall f | f in Replaced(kw, t) :: Back(kw, f) == f
    decreases |t|
  {
    hide Back, SameText;
    if t != "" {
      if kw.Masking().Hit(t) {
        var f, rest := t[..|kw.matchText|], t[|kw.matchText|..];
        RecasedExactly(kw, rest);
        BackKeepsLength(kw, f);
        assert t == f + rest;
        SplitEqual(Back(kw, f), Recased(kw, rest), f, rest);
        assert forall x :: x in Replaced(kw, t) <==> x == f || x in Replaced(kw, rest);
      } else {
        RecasedExactly(kw, t[1..]);
        assert t == [t[0]] + t[1..];
        SplitEqual([t[0]], Recased(kw, t[1..]), [t[0]], t[1..]);
      }
    }
  }

  lemma {:induction false} ReplacedMatch(kw: Keyword, t: string)
    ensures forall f | f in Replaced(kw, t) :: SameText(f, kw.matchText, kw.caseSensitive)
    decreases |t|
  {
    hide SameText;
    if t != "" {
      ReplacedMatch(kw, t[if kw.Masking().Hit(t) then |kw.matchText| else 1..]);
    }
  }

  lemma {:induction false} UnchangedExactly(kw: Keyword, t: string)
    requires kw.Valid()
    ensures Recased(kw, t) == t <==> kw.caseSensitive || forall f | f in Replaced(kw, t) :: CaseSurvives(kw, f)
  {
    hide SameText, Back, CaseSurvives, Recased, Replaced;
    RecasedExactly(kw, t);
    ReplacedMatch(kw, t);
    forall f | f in Replaced(kw, t) ensures Back(kw, f) == f <==> kw.caseSensitive || CaseSurvives(kw, f) {
      if kw.caseSensitive {
        ExactComesBack(kw, f);
      } else {
        CaseInsensitiveRestores(kw, f);
      }
    }
  }

  /** Masking and unmasking give a text back exactly when the keyword regards case, or the case of
      every replaced occurrence survives. */
  lemma {:induction false} RoundTripExactly(kw: Keyword, t: string)
    requires kw.Valid() && NoOverlap(kw, kw) && Absent(kw, t)
    ensures Substitute(kw.Unmasking(Verbatim), Substitute(kw.Masking(), t)) == t
       <==> kw.caseSensitive || forall f | f in Replaced(kw, t) :: CaseSurvives(kw, f)
  {
    hide SameText, NoOverlap, Substitute, Absent, CaseSurvives, Recased, Replaced;
    UnmaskingUndoesMasking(kw, t);
    UnchangedExactly(kw, t);
  }

  lemma {:induction false} ExactComesBack(kw: Keyword, found: string)
    requires kw.caseSensitive && SameText(found, kw.matchText, true)
    ensures Back(kw, found) == found
  {
    ExactIsEqual(found, kw.matchText);
  }

  // ---------- around a scan ----------

  /** No occurrence of the match text lies in a token. */
  predicate AvoidsTokens(kw: Keyword, segments: seq<Segment>) {
    forall s, i | s in segments && !s.Plain? && 0 <= i <= |s.token| :: !OccursAt(s.token, i, kw.matchText, kw.caseSensitive)
  }

  function MaskedPlain(kw: Keyword, segments: seq<Segment>): string {
    if segments == [] then ""
    else (if segments[0].Plain? then Substitute(kw.Masking(), segments[0].text) else segments[0].token)
         + MaskedPlain(kw, segments[1..])
  }

  /** One step of a substitution. */
  function FirstStep(w: Swap, t: string): (n: nat)
    requires t != ""
    ensures 0 < n <= |t|
  {
    if w.Hit(t) then |w.needle| else 1
  }

  function FirstWritten(w: Swap, t: string): string
    requires t != ""
  {
    if w.Hit(t) then w.Shaped(t[..|w.needle|]) else [t[0]]
  }

  lemma {:induction false} SubstituteStep(w: Swap, t: string)
    requires t != ""
    ensures Substitute(w, t) == FirstWritten(w, t) + Substitute(w, t[FirstStep(w, t)..])
  {
    hide SameText, Render;
  }

  lemma {:induction false} StepInPart(w: Swap, a: string, b: string)
    requires NoBrackets(w.needle) && a != "" && (b == "" || b[0] == '[' || a[|a| - 1] == ']')
    ensures FirstStep(w, a + b) == FirstStep(w, a) && FirstWritten(w, a + b) == FirstWritten(w, a)
    ensures (a + b)[FirstStep(w, a)..] == a[FirstStep(w, a)..] + b
  {
    hide SameText, Swap.Shaped;
    HitInPart(w, a, b);
  }

  /** Nothing that is looked for crosses a bracket, so a text is masked piece by piece. */
  lemma {:induction false} MaskedInParts(w: Swap, a: string, b: string)
    requires NoBrackets(w.needle) && (b == "" || b[0] == '[' || (a != "" && a[|a| - 1] == ']'))
    ensures Substitute(w, a + b) == Substitute(w, a) + Substitute(w, b)
    decreases |a|
  {
    hide Substitute, FirstStep, FirstWritten, NoBrackets;
    if a == "" {
      assert a + b == b;
      NothingToSubstitute(w, "");
    } else {
      StepInPart(w, a, b);
      SubstituteStep(w, a);
      SubstituteStep(w, a + b);
      var rest, written := a[FirstStep(w, a)..], FirstWritten(w, a);
      if rest == "" {
        NothingToSubstitute(w, rest);
        assert rest + b == b;
      } else {
        assert rest[|rest| - 1] == a[|a| - 1];
        MaskedInParts(w, rest, b);
        assert written + (Substitute(w, rest) + Substitute(w, b)) == written + Substitute(w, rest) + Substitute(w, b);
      }
    }
  }

  lemma {:induction false} CharOfHit(w: Swap, t: string, i: nat)
    requires w.Hit(t) && NoBrackets(w.needle) && i < |w.needle|
    ensures t[i] != '[' && t[i] != ']'
  {
    assert SameChar(t[..|w.needle|][i], w.needle[i], w.caseSensitive);
  }

  lemma {:induction false} HitInPart(w: Swap, a: string, b: string)
    requires NoBrackets(w.needle) && a != "" && (b == "" || b[0] == '[' || a[|a| - 1] == ']')
    ensures w.Hit(a + b) == w.Hit(a)
    ensures w.Hit(a) ==> (a + b)[..|w.needle|] == a[..|w.needle|]
  {
    hide SameText;
    if |w.needle| <= |a| {
      assert (a + b)[..|w.needle|] == a[..|w.needle|];
    } else if w.Hit(a + b) {
      CharOfHit(w, a + b, |a|);
      CharOfHit(w, a + b, |a| - 1);
    }
  }

  lemma {:induction false} TokenIsNotMasked(w: Swap, t: string)
    requires forall i | 0 <= i <= |t| :: !OccursAt(t, i, w.needle, w.caseSensitive)
    ensures Substitute(w, t) == t
  {
    hide OccursAt, Substitute;
    SubstituteSkips(w, t, 0, |t|);
    NothingToSubstitute(w, t[|t|..]);
    assert t[0..] == t && t[0..|t|] == t;
  }

  /** Masking the shown segments masks the plain ones and leaves the tokens. */
  lemma {:induction false} MaskingShown(k: Sealer, kw: Keyword, segments: seq<Segment>)
    requires k.Sound() && NoBrackets(kw.matchText) && AvoidsTokens(kw, segments)
    requires AllSound(k, segments) && Alternating(segments, false)
    ensures Substitute(kw.Masking(), Shown(segments)) == MaskedPlain(kw, segments)
    decreases |segments|
  {
    hide Sound, Substitute, OccursAt, IsSpan;
    var w := kw.Masking();
    if segments == [] {
      NothingToSubstitute(w, "");
    } else {
      var s, rest := segments[0], segments[1..];
      assert forall x | x in rest :: x in segments;
      AlternatingAnyway(rest, s.Plain?);
      MaskingShown(k, kw, rest);
      if s.Plain? {
        TokenFirst(k, rest);
      } else {
        TokenIsSpan(k, s);
        SpanShape(s.token);
        assert s in segments;
        TokenIsNotMasked(w, s.token);
      }
      MaskedInParts(w, s.Shown(), Shown(rest));
    }
  }

  lemma {:induction false} MaskedHasNoBracket(kw: Keyword, t: string)
    requires kw.Valid() && '[' !in t
    ensures '[' !in Substitute(kw.Masking(), t)
    decreases |t|
  {
    hide SameText, Substitute;
    MaskStep(kw, t);
    if t != "" {
      var step := if kw.Masking().Hit(t) then |kw.matchText| else 1;
      MaskedHasNoBracket(kw, t[step..]);
      AliasHasNoBracket(kw, t[..step]);
    }
  }

  lemma {:induction false} AliasHasNoBracket(kw: Keyword, found: string)
    requires kw.Valid()
    ensures '[' !in kw.Masking().Shaped(found) && '[' !in kw.alias
  {
    var a := kw.Masking().Shaped(found);
    AliasStaysItself(kw, found);
    forall i | 0 <= i < |a| ensures a[i] != '[' {
      assert SameChar(a[i], kw.alias[i], kw.caseSensitive);
    }
  }

  /** The segments with each plain text as masking and unmasking leave it. */
  function RecasedSegments(kw: Keyword, segments: seq<Segment>): seq<Segment> {
    if segments == [] then []
    else
      [if segments[0].Plain? then Plain(Recased(kw, segments[0].text), segments[0].origin) else segments[0]]
      + RecasedSegments(kw, segments[1..])
  }

  /** Unmasking around the tokens gives back what the segments show, each plain text recased. */
  lemma {:induction false} UnmaskingMasked(k: Sealer, kw: Keyword, segments: seq<Segment>)
    requires k.Sound() && kw.Valid() && NoOverlap(kw, kw) && AllSound(k, segments) && Alternating(segments, false)
    requires forall s | s in segments && s.Plain? :: '[' !in s.text && Absent(kw, s.text)
    ensures SubstituteOutsideSpans(kw.Unmasking(Verbatim), MaskedPlain(kw, segments)) == Shown(RecasedSegments(kw, segments))
    decreases |segments|
  {
    hide Sound, Substitute, SubstituteOutsideSpans, IsSpan, SpanLen, NoOverlap, Absent, Recased, Shown;
    var u := kw.Unmasking(Verbatim);
    if segments == [] {
      NothingToSubstitute(u, "");
      ShownNothing();
    } else {
      var s, rest := segments[0], segments[1..];
      assert s in segments && forall x | x in rest :: x in segments;
      AlternatingAnyway(rest, s.Plain?);
      UnmaskingMasked(k, kw, rest);
      ShownCons(RecasedSegments(kw, segments)[0], RecasedSegments(kw, rest));
      var tail := MaskedPlain(kw, rest);
      if s.Plain? {
        var p := Substitute(kw.Masking(), s.text);
        MaskedHasNoBracket(kw, s.text);
        AliasHasNoBracket(kw, "");
        MaskedTokenFirst(k, kw, rest);
        forall i | 0 <= i < |p| ensures SpanLen((p + tail)[i..]) == 0 {
          assert (p + tail)[i..][0] == p[i];
          if SpanLen((p + tail)[i..]) > 0 {
            SpanLenNeedsBracket((p + tail)[i..]);
          }
        }
        PlainRunIsSubstituted(u, p, tail);
        UnmaskingUndoesMasking(kw, s.text);
      } else {
        TokenIsSpan(k, s);
        TokenIsCopied(u, s.token, tail);
      }
    }
  }

  lemma {:induction false} MaskedTokenFirst(k: Sealer, kw: Keyword, segments: seq<Segment>)
    requires k.Sound() && AllSound(k, segments) && Alternating(segments, true)
    ensures MaskedPlain(kw, segments) == "" || MaskedPlain(kw, segments)[0] == '['
  {
    hide IsSpan, Sound, Substitute;
    if segments != [] {
      assert segments[0] in segments;
      TokenIsSpan(k, segments[0]);
      SpanShape(segments[0].token);
    }
  }

  lemma {:induction false} TokenIsCopied(u: Swap, token: string, tail: string)
    requires IsSpan(token)
    ensures SubstituteOutsideSpans(u, token + tail) == token + SubstituteOutsideSpans(u, tail)
  {
    hide IsSpan, SpanLen, SameText, Render;
    SpanShape(token);
    assert (token + tail)[..|token|] == token && (token + tail)[|token|..] == tail;
    SpanLenUnique(token + tail, |token|);
  }

  lemma {:induction false} AbsentPart(kw: Keyword, t: string, a: nat, b: nat)
    requires a <= b <= |t| && Absent(kw, t)
    ensures Absent(kw, t[a..b])
  {
    hide OccursAt;
    forall i | 0 <= i <= b - a ensures !OccursAt(t[a..b], i, kw.alias, kw.caseSensitive) {
      if OccursAt(t[a..b], i, kw.alias, kw.caseSensitive) {
        OccurrenceFits(t[a..b], i, kw.alias, kw.caseSensitive);
        OccursInPart(t, a, b, i, kw.alias, kw.caseSensitive);
      }
    }
  }

  /** The stretches of text the segments stand for, put together. */
  function Sources(segments: seq<Segment>): string {
    if segments == [] then "" else segments[0].Source() + Sources(segments[1..])
  }

  lemma {:induction false} ExpandGivesSources(k: Sealer, segments: seq<Segment>)
    requires k.Sound() && AllSound(k, segments) && forall s | s in segments :: !s.Existing?
    ensures Expand(k, segments) == Some(Sources(segments))
  {
    hide ResolveSpan, BuildToken, IsCategory, SpanFree;
    if segments != [] {
      var s := segments[0];
      assert s in segments;
      ExpandGivesSources(k, segments[1..]);
      if s.Sealed? {
        TokenResolves(k, s.category, s.value);
      }
    }
  }

  lemma {:induction false} RecasedIsAlternating(kw: Keyword, segments: seq<Segment>, before: bool)
    requires Alternating(segments, before)
    ensures Alternating(RecasedSegments(kw, segments), before)
    decreases |segments|
  {
    hide Recased;
    if segments != [] {
      RecasedIsAlternating(kw, segments[1..], segments[0].Plain?);
      assert RecasedSegments(kw, segments)[1..] == RecasedSegments(kw, segments[1..]);
    }
  }

  lemma {:induction false} RecasedHasNoBracket(kw: Keyword, t: string)
    requires '[' !in t && NoBrackets(kw.matchText)
    ensures '[' !in Recased(kw, t)
    decreases |t|
  {
    hide SameText, Back;
    if t != "" {
      if kw.Masking().Hit(t) {
        BackHasNoBracket(kw, t[..|kw.matchText|]);
        RecasedHasNoBracket(kw, t[|kw.matchText|..]);
      } else {
        RecasedHasNoBracket(kw, t[1..]);
      }
    }
  }

  lemma {:induction false} BackHasNoBracket(kw: Keyword, found: string)
    requires NoBrackets(kw.matchText)
    ensures '[' !in Back(kw, found)
  {
    CutLimits.CaseKeepsShape(kw.matchText, DetectCasePattern(kw.Masking().Shaped(found)));
  }

  lemma {:induction false} RecasedIsSound(k: Sealer, kw: Keyword, segments: seq<Segment>)
    requires NoBrackets(kw.matchText) && AllSound(k, segments)
    requires forall s | s in segments :: !s.Existing? && (s.Plain? ==> '[' !in s.text)
    ensures AllSound(k, RecasedSegments(kw, segments)) && forall s | s in RecasedSegments(kw, segments) :: !s.Existing?
  {
    hide SpanFree, BuildToken, IsCategory, Recased;
    if segments != [] {
      var s := segments[0];
      assert s in segments;
      RecasedIsSound(k, kw, segments[1..]);
      if s.Plain? {
        RecasedHasNoBracket(kw, s.text);
        BracketFreeIsSpanFree(Recased(kw, s.text));
      }
    }
  }

  /** Recasing the plain texts changes nothing exactly when it changes none of them. */
  lemma {:induction false} SourcesExactly(kw: Keyword, segments: seq<Segment>)
    ensures Sources(RecasedSegments(kw, segments)) == Sources(segments)
       <==> forall s | s in segments && s.Plain? :: Recased(kw, s.text) == s.text
  {
    hide Recased;
    if segments != [] {
      var s, rest := segments[0], segments[1..];
      SourcesExactly(kw, rest);
      var r := RecasedSegments(kw, segments);
      assert r[1..] == RecasedSegments(kw, rest);
      if s.Plain? {
        RecasedKeepsLength(kw, s.text);
      }
      SplitEqual(r[0].Source(), Sources(r[1..]), s.Source(), Sources(rest));
      assert forall x :: x in segments <==> x == s || x in rest;
    }
  }

  lemma {:induction false} LaidSources(k: Sealer, segments: seq<Segment>, text: string, from: nat, to: nat)
    requires from <= to <= |text| && Laid(k, segments, text, from, to)
    ensures Sources(segments) == text[from..to]
    decreases |segments|
  {
    hide Laid, Sound;
    if segments == [] {
      EmptyIsLaid(k, text, from, to);
    } else {
      LaidUnfold(k, segments, text, from, to);
      var next := from + |segments[0].Source()|;
      LaidSources(k, segments[1..], text, next, to);
      assert text[from..to] == text[from..next] + text[next..to];
    }
  }

  lemma {:induction false} EmptyIsLaid(k: Sealer, text: string, from: nat, to: nat)
    requires from <= to <= |text| && Laid(k, [], text, from, to)
    ensures from == to
  {
  }

  /** A text without brackets holds no token, so no segment of its scan is an earlier one. */
  lemma {:induction false} NoneExisting(k: Sealer, segments: seq<Segment>, text: string)
    requires '[' !in text && Laid(k, segments, text, 0, |text|)
    ensures forall s | s in segments :: !s.Existing? && (s.Plain? ==> '[' !in s.text)
  {
    hide Laid, Sound, IsSpan;
    forall s | s in segments ensures !s.Existing? && (s.Plain? ==> '[' !in s.text) {
      PlainIsSource(k, segments, text, 0, s);
      var source := text[s.origin..s.origin + |s.Source()|];
      assert forall i | 0 <= i < |source| :: source[i] == text[s.origin + i];
      ExistingHasBracket(k, s);
    }
  }

  lemma {:induction false} ExistingHasBracket(k: Sealer, s: Segment)
    requires Sound(k, s)
    ensures s.Existing? ==> '[' in s.Source()
  {
    hide IsSpan;
    if s.Existing? {
      SpanShape(s.token);
    }
  }

  /** The request and the response together: scan, mask, send; unmask, detokenize. With a keyword
      whose alias does not overlap itself and is not in the text, whose match text holds no bracket
      and is in no token the scan made, the text comes back with its plain stretches recased; and it
      comes back as it was exactly when the keyword regards case, or the case of every occurrence
      that masking replaced survives. */
  lemma {:induction false} TwoWayRoundTrip(k: Sealer, rules: seq<Rule>, external: seq<ExternalSpan>, kw: Keyword, text: string)
    requires k.Sound() && forall i | 0 <= i < |rules| :: IsValidRuleId(rules[i].category)
    requires ScanSegments(k, rules, text, external).Ok?
    requires kw.Valid() && NoOverlap(kw, kw) && NoBrackets(kw.matchText) && '[' !in text && Absent(kw, text)
    requires AvoidsTokens(kw, ScanSegments(k, rules, text, external).value)
    ensures var segments := ScanSegments(k, rules, text, external).value;
            var sent := Substitute(kw.Masking(), ScanText(k, rules, text, external).value);
            var back := Rewritten(k, [kw], Verbatim, sent);
            && back == Some(Sources(RecasedSegments(kw, segments)))
            && (back == Some(text) <==>
                  kw.caseSensitive
                  || forall s, f | s in segments && s.Plain? && f in Replaced(kw, s.text) :: CaseSurvives(kw, f))
  {
    hide Laid, Alternating, ExistingOf, Expand, IsValidRuleId, ScanSegments, Substitute, SubstituteOutsideSpans, Absent,
      Recased, Replaced, CaseSurvives, NoOverlap, Sound, DetokenizeFrom, SpanFree, AvoidsTokens, Recovered, RecasedSegments;
    var segments := ScanSegments(k, rules, text, external).value;
    ScanKeeps(k, rules, text, external);
    LaidIsSound(k, segments, text, 0, |text|);
    NoneExisting(k, segments, text);
    forall s | s in segments && s.Plain? ensures Absent(kw, s.text) {
      PlainIsSource(k, segments, text, 0, s);
      AbsentPart(kw, text, s.origin, s.origin + |s.text|);
    }
    MaskingShown(k, kw, segments);
    UnmaskingMasked(k, kw, segments);
    var sent := MaskedPlain(kw, segments);
    CutLimits.OneKeyword(kw, Verbatim, sent);
    CutLimits.RewrittenIs(k, [kw], Verbatim, sent);
    var recased := RecasedSegments(kw, segments);
    RecasedIsAlternating(kw, segments, false);
    RecasedIsSound(k, kw, segments);
    ShownRecovers(k, recased, false);
    ExpandGivesSources(k, recased);
    LaidSources(k, segments, text, 0, |text|);
    assert text[0..|text|] == text;
    SourcesExactly(kw, segments);
    PlainTextsSurvive(kw, segments);
  }

  lemma {:induction false} PlainTextsSurvive(kw: Keyword, segments: seq<Segment>)
    requires kw.Valid()
    ensures (forall s | s in segments && s.Plain? :: Recased(kw, s.text) == s.text)
       <==> kw.caseSensitive
            || forall s, f | s in segments && s.Plain? && f in Replaced(kw, s.text) :: CaseSurvives(kw, f)
  {
    hide Recased, Replaced, CaseSurvives, SameText;
    forall s | s in segments && s.Plain?
      ensures Recased(kw, s.text) == s.text <==> kw.caseSensitive || forall f | f in Replaced(kw, s.text) :: CaseSurvives(kw, f)
    {
      UnchangedExactly(kw, s.text);
    }
  }

  lemma {:induction false} BracketFreeIsSpanFree(text: string)
    requires '[' !in text
    ensures SpanFree(text)
  {
    hide SpanLen;
    forall i | 0 <= i < |text| ensures SpanLen(text[i..]) == 0 {
      CutLimits.NoBracketNoSpan(text[i..]);
    }
  }

  lemma {:induction false} OccurrenceChar(t: string, i: nat, needle: string, cs: bool, j: nat)
    requires OccursAt(t, i, needle, cs) && j < |needle|
    ensures i + j < |t| && SameChar(t[i + j], needle[j], cs)
  {
    assert t[i..i + |needle|][j] == t[i + j];
  }

  /** A character that no span holds keeps the match text out of every token. */
  lemma {:induction false} OuterMatchAvoidsTokens(k: Sealer, kw: Keyword, segments: seq<Segment>)
    requires k.Sound() && NoBrackets(kw.matchText) && CutLimits.HasOuterChar(kw.matchText)
    requires forall s | s in segments :: Sound(k, s)
    ensures AvoidsTokens(kw, segments)
  {
    hide Sound, IsSpan;
    forall s, i | s in segments && !s.Plain? && 0 <= i <= |s.token|
      ensures !OccursAt(s.token, i, kw.matchText, kw.caseSensitive)
    {
      TokenIsSpan(k, s);
      SpanShape(s.token);
      var j :| 0 <= j < |kw.matchText| && !IsInnerChar(kw.matchText[j]);
      if OccursAt(s.token, i, kw.matchText, kw.caseSensitive) {
        OccurrenceChar(s.token, i, kw.matchText, kw.caseSensitive, j);
      }
    }
  }
}
