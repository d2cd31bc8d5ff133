/** Rewriting inside a JSON string: what a client parses out of a rewritten fragment is what rewriting the
    text itself would have given. */
module JsonFragments {
  import opened Text
  import opened TokenSpan
  import opened Sealing
  import opened Detokenize
  import opened Keywords
  import opened StreamingCut
  import opened CutLimits
  import Rewriter

  lemma {:induction false} EscapeConcat(a: string, b: string)
    ensures JsonEscape(a + b) == JsonEscape(a) + JsonEscape(b)
    decreases |a|
  {
    hide EscapeChar;
    if a == "" {
      assert a + b == b;
    } else {
      assert (a + b)[0] == a[0] && (a + b)[1..] == a[1..] + b;
      EscapeConcat(a[1..], b);
    }
  }

  lemma {:induction false} EscapeOne(c: char)
    ensures JsonEscape([c]) == EscapeChar(c)
  {
    assert [c][1..] == "" && EscapeChar(c) + "" == EscapeChar(c);
  }

  lemma {:induction false} EscapedOrBackslash(c: char)
    ensures (EscapeChar(c) == [c] && c != '\\') || (EscapeChar(c) != "" && EscapeChar(c)[0] == '\\')
  {
  }

  /** Escaped text that holds no backslash was not escaped. */
  lemma {:induction false} FrontIsPlain(u: string, n: nat)
    requires n <= |JsonEscape(u)| && '\\' !in JsonEscape(u)[..n]
    ensures n <= |u| && u[..n] == JsonEscape(u)[..n] && JsonEscape(u)[n..] == JsonEscape(u[n..])
    decreases n
  {
    hide EscapeChar;
    if n > 0 {
      EscapedOrBackslash(u[0]);
      var e := JsonEscape(u);
      assert e[0] == e[..n][0] == EscapeChar(u[0])[0];
      var rest := JsonEscape(u[1..]);
      assert e == [u[0]] + rest;
      assert rest[..n - 1] == e[..n][1..];
      FrontIsPlain(u[1..], n - 1);
      assert u[..n] == [u[0]] + u[1..][..n - 1] && u[1..][n - 1..] == u[n..];
      assert e[n..] == rest[n - 1..];
    } else {
      assert u[0..] == u && JsonEscape(u)[0..] == JsonEscape(u);
    }
  }

  lemma {:induction false} PlainFront(u: string, n: nat)
    requires n <= |u| && NeedsNoEscape(u[..n])
    ensures n <= |JsonEscape(u)| && JsonEscape(u)[..n] == u[..n] && JsonEscape(u)[n..] == JsonEscape(u[n..])
  {
    EscapeOfPlain(u[..n]);
    EscapeConcat(u[..n], u[n..]);
    assert u == u[..n] + u[n..];
  }

  lemma {:induction false} SpanIsPlain(s: string)
    requires IsSpan(s)
    ensures NeedsNoEscape(s) && '\\' !in s
  {
    hide IsSpan;
    SpanShape(s);
    forall i | 0 <= i < |s| ensures EscapeChar(s[i]) == [s[i]] && s[i] != '\\' {
      SpanCharIsPlain(s[i]);
    }
  }

  lemma {:induction false} SpanCharIsPlain(c: char)
    requires IsInnerChar(c) || c == '[' || c == ']'
    ensures EscapeChar(c) == [c] && c != '\\'
  {
  }

  /** A span begins an escaped text exactly when it begins the text. */
  lemma {:induction false} SpanOfEscaped(u: string)
    ensures SpanLen(JsonEscape(u)) == SpanLen(u)
  {
    hide IsSpan, JsonEscape;
    var e, n, m := JsonEscape(u), SpanLen(u), SpanLen(JsonEscape(u));
    if n > 0 {
      SpanIsPlain(u[..n]);
      PlainFront(u, n);
      SpanLenUnique(e, n);
    } else if m > 0 {
      SpanIsPlain(e[..m]);
      FrontIsPlain(u, m);
      SpanLenUnique(u, m);
    }
  }

  function MapEscape(r: Result<string, DetokenizeError>): Result<string, DetokenizeError> {
    match r
    case Err(e) => Err(e)
    case Ok(s) => Ok(JsonEscape(s))
  }

  /** Detokenizing an escaped text into JSON is detokenizing the text and escaping the result. */
  lemma {:induction false} DetokenizeEscaped(k: Sealer, u: string, index: nat)
    ensures DetokenizeFrom(k, JsonEscaped, JsonEscape(u), index) == MapEscape(DetokenizeFrom(k, Verbatim, u, index))
    decreases |u|
  {
    hide SpanLen, ResolveSpan, ErrorCategory, EscapeChar, JsonEscape;
    var e := JsonEscape(u);
    if u == "" {
      NothingEscaped();
    } else {
      SpanOfEscaped(u);
      var n := SpanLen(u);
      if n > 0 {
        SpanIsPlain(u[..n]);
        PlainFront(u, n);
        DetokenizeEscaped(k, u[n..], index + 1);
        var p := ResolveSpan(k, u[..n]);
        var tail := DetokenizeFrom(k, Verbatim, u[n..], index + 1);
        if p.Some? && tail.Ok? {
          EscapeConcat(p.value, tail.value);
        }
      } else {
        DetokenizeEscaped(k, u[1..], index);
        EscapeConcat(u[..1], u[1..]);
        assert u == u[..1] + u[1..] && u[..1] == [u[0]];
        EscapeOne(u[0]);
        OneCharPassed(k, u, index);
        var tail := DetokenizeFrom(k, Verbatim, u[1..], index);
        if tail.Ok? {
          EscapeConcat([u[0]], tail.value);
        }
      }
    }
  }

  lemma {:induction false} NothingEscaped()
    ensures JsonEscape("") == ""
  {
  }

  lemma {:induction false} EscapeIsShort(c: char)
    ensures 1 <= |EscapeChar(c)| <= 6 && forall i | 0 < i < |EscapeChar(c)| :: EscapeChar(c)[i] != '['
  {
  }

  /** The escape of one character passes through, character by character, since no span begins in it. */
  lemma {:induction false} OneCharPassed(k: Sealer, u: string, index: nat)
    requires u != "" && SpanLen(u) == 0
    ensures DetokenizeFrom(k, JsonEscaped, JsonEscape(u), index)
         == Prepend(EscapeChar(u[0]), DetokenizeFrom(k, JsonEscaped, JsonEscape(u[1..]), index))
  {
    hide SpanLen, ResolveSpan, ErrorCategory, EscapeChar, JsonEscape, DetokenizeFrom, Prepend;
    var head, tail := EscapeChar(u[0]), JsonEscape(u[1..]);
    var e := head + tail;
    EscapeUnfold(u);
    EscapeIsShort(u[0]);
    SpanOfEscaped(u);
    assert e[0..] == e;
    forall i | 0 <= i < |head| ensures SpanLen(e[i..]) == 0 {
      if i > 0 {
        assert e[i..][0] == head[i];
        NoOpenNoSpanHere(e[i..]);
      }
    }
    SkipPlain(k, JsonEscaped, e, 0, |head|, index);
    assert e[0..|head|] == head && e[|head|..] == tail;
  }

  lemma {:induction false} EscapeUnfold(u: string)
    requires u != ""
    ensures JsonEscape(u) == EscapeChar(u[0]) + JsonEscape(u[1..])
  {
    hide EscapeChar;
  }

  lemma {:induction false} NoOpenNoSpanHere(t: string)
    requires t != "" && t[0] != '['
    ensures SpanLen(t) == 0
  {
    if SpanLen(t) > 0 {
      SpanLenNeedsBracket(t);
    }
  }

  // ---------- keywords in escaped text ----------

  /** No character that JSON writes as an escape with a letter in it. */
  predicate NoControls(s: string) { forall i | 0 <= i < |s| :: s[i] as int >= 32 }

  lemma {:induction false} HitIsPlain(kw: Keyword, r: Rendering, t: string)
    requires kw.Valid() && kw.Unmasking(r).Hit(t)
    ensures NeedsNoEscape(t[..|kw.alias|]) && '\\' !in t[..|kw.alias|]
  {
    var w := t[..|kw.alias|];
    forall i | 0 <= i < |w| ensures EscapeChar(w[i]) == [w[i]] && w[i] != '\\' {
      assert kw.alias[..|w|] == kw.alias;
      AliasChars(kw, w, i);
    }
  }

  /** An alias begins an escaped text exactly when it begins the text. */
  lemma {:induction false} HitOfEscaped(kw: Keyword, u: string)
    requires kw.Valid()
    ensures kw.Unmasking(JsonEscaped).Hit(JsonEscape(u)) == kw.Unmasking(Verbatim).Hit(u)
    ensures kw.Unmasking(Verbatim).Hit(u) ==>
              var n := |kw.alias|;
              n <= |JsonEscape(u)| && JsonEscape(u)[..n] == u[..n] && JsonEscape(u)[n..] == JsonEscape(u[n..])
  {
    hide SameText, JsonEscape, NeedsNoEscape;
    if kw.Unmasking(Verbatim).Hit(u) {
      HitIsPlain(kw, Verbatim, u);
      PlainFront(u, |kw.alias|);
    } else if kw.Unmasking(JsonEscaped).Hit(JsonEscape(u)) {
      HitIsPlain(kw, JsonEscaped, JsonEscape(u));
      FrontIsPlain(u, |kw.alias|);
    }
  }

  lemma {:induction false} HitBeginsAlike(kw: Keyword, r: Rendering, t: string)
    requires kw.Valid()
    ensures kw.Unmasking(r).Hit(t) ==> t != "" && (IsLetter(t[0]) || IsDigit(t[0]))
  {
    if kw.Unmasking(r).Hit(t) {
      var w := t[..|kw.alias|];
      assert kw.alias[..|w|] == kw.alias && w[0] == t[0];
      AliasChars(kw, w, 0);
    }
  }

  lemma {:induction false} ShortEscape(c: char)
    requires c as int >= 32
    ensures EscapeChar(c) == [c] || (EscapeChar(c) == ['\\', c] && !IsLetter(c) && !IsDigit(c) && c != '[')
  {
  }

  /** The escape of one character is passed over, when no span and no alias begins there. */
  lemma {:induction false} OneCharUnmasked(kw: Keyword, u: string)
    requires kw.Valid() && u != "" && u[0] as int >= 32 && SpanLen(u) == 0 && !kw.Unmasking(Verbatim).Hit(u)
    ensures var w := kw.Unmasking(JsonEscaped);
            SubstituteOutsideSpans(w, JsonEscape(u)) == EscapeChar(u[0]) + SubstituteOutsideSpans(w, JsonEscape(u[1..]))
  {
    hide SpanLen, SameText, SubstituteOutsideSpans, EscapeChar, JsonEscape;
    var w := kw.Unmasking(JsonEscaped);
    var e, rest := JsonEscape(u), JsonEscape(u[1..]);
    EscapeUnfold(u);
    SpanOfEscaped(u);
    HitOfEscaped(kw, u);
    ShortEscape(u[0]);
    OutsideStep(w, e);
    if EscapeChar(u[0]) == [u[0]] {
      assert e[1..] == rest;
    } else {
      assert e[1..] == [u[0]] + rest && e[1..][1..] == rest;
      NoOpenNoSpanHere(e[1..]);
      HitBeginsAlike(kw, JsonEscaped, e[1..]);
      OutsideStep(w, e[1..]);
      assert ['\\'] + ([u[0]] + SubstituteOutsideSpans(w, rest)) == ['\\', u[0]] + SubstituteOutsideSpans(w, rest);
    }
  }

  /** Unmasking inside a JSON string is unmasking the text and escaping the result. */
  lemma {:induction false} UnmaskEscaped(kw: Keyword, u: string)
    requires kw.Valid() && NoControls(u)
    ensures SubstituteOutsideSpans(kw.Unmasking(JsonEscaped), JsonEscape(u))
         == JsonEscape(SubstituteOutsideSpans(kw.Unmasking(Verbatim), u))
    decreases |u|
  {
    hide SpanLen, SameText, SubstituteOutsideSpans, EscapeChar, JsonEscape;
    var j, v := kw.Unmasking(JsonEscaped), kw.Unmasking(Verbatim);
    if u == "" {
      NothingEscaped();
      NothingToSubstitute(j, JsonEscape(u));
      NothingToSubstitute(v, u);
    } else {
      SpanOfEscaped(u);
      HitOfEscaped(kw, u);
      var n := SpanLen(u);
      if n > 0 {
        SpanIsPlain(u[..n]);
        PlainFront(u, n);
        OutsideSpan(j, JsonEscape(u));
        OutsideSpan(v, u);
        UnmaskEscaped(kw, u[n..]);
        EscapeOfPlain(u[..n]);
        EscapeConcat(u[..n], SubstituteOutsideSpans(v, u[n..]));
      } else {
        OutsideStep(v, u);
        if v.Hit(u) {
          var m := |kw.alias|;
          HitSome(j, JsonEscape(u));
          OutsideStep(j, JsonEscape(u));
          UnmaskEscaped(kw, u[m..]);
          EscapeConcat(v.Shaped(u[..m]), SubstituteOutsideSpans(v, u[m..]));
        } else {
          OneCharUnmasked(kw, u);
          UnmaskEscaped(kw, u[1..]);
          EscapeOne(u[0]);
          EscapeConcat([u[0]], SubstituteOutsideSpans(v, u[1..]));
        }
      }
    }
  }

  lemma {:induction false} HitSome(w: Swap, t: string)
    requires w.Hit(t)
    ensures t != ""
  {
  }

  lemma {:induction false} CasedHasNoControls(s: string, p: CasePattern)
    requires NoControls(s)
    ensures NoControls(ApplyCasePattern(s, p))
  {
    var t := ApplyCasePattern(s, p);
    forall i | 0 <= i < |t| ensures t[i] as int >= 32 {
      assert t[i] == s[i] || t[i] == ToLower(s[i]) || t[i] == ToUpper(s[i]);
    }
  }

  lemma {:induction false} UnmaskedHasNoControls(kw: Keyword, u: string)
    requires NoControls(u) && NoControls(kw.matchText)
    ensures NoControls(SubstituteOutsideSpans(kw.Unmasking(Verbatim), u))
    decreases |u|
  {
    hide SpanLen, SameText, SubstituteOutsideSpans, ApplyCasePattern, DetectCasePattern;
    var v := kw.Unmasking(Verbatim);
    if u == "" {
      NothingToSubstitute(v, u);
    } else if SpanLen(u) > 0 {
      OutsideSpan(v, u);
      UnmaskedHasNoControls(kw, u[SpanLen(u)..]);
    } else {
      OutsideStep(v, u);
      if v.Hit(u) {
        UnmaskedHasNoControls(kw, u[|kw.alias|..]);
        CasedHasNoControls(kw.matchText, DetectCasePattern(u[..|kw.alias|]));
      } else {
        UnmaskedHasNoControls(kw, u[1..]);
      }
    }
  }

  /** Every keyword may be unmasked before others, but for the last; those must write no control character. */
  predicate JsonSafe(ks: seq<Keyword>) {
    && (forall kw | kw in ks :: kw.Valid())
    && (forall i | 0 <= i < |ks| - 1 :: NoControls(ks[i].matchText))
  }

  lemma {:induction false} UnmaskAllEscaped(ks: seq<Keyword>, u: string)
    requires JsonSafe(ks) && NoControls(u)
    ensures Unmask(ks, JsonEscaped, JsonEscape(u)) == JsonEscape(Unmask(ks, Verbatim, u))
    decreases |ks|
  {
    hide SubstituteOutsideSpans, JsonEscape, NoControls, Keyword.Valid;
    if ks != [] {
      assert ks[0] in ks;
      UnmaskEscaped(ks[0], u);
      if |ks| > 1 {
        UnmaskedHasNoControls(ks[0], u);
        UnmaskAllEscaped(ks[1..], SubstituteOutsideSpans(ks[0].Unmasking(Verbatim), u));
      } else {
        assert ks[1..] == [];
      }
    }
  }

  // ---------- rewriting fragments ----------

  /** Rewriting commutes with escaping: the rewritten inside of a JSON string is the escaped rewritten text. */
  lemma {:induction false} RewrittenFragment(k: Sealer, ks: seq<Keyword>, u: string)
    requires JsonSafe(ks) && NoControls(u)
    ensures Rewritten(k, ks, JsonEscaped, JsonEscape(u))
         == match Rewritten(k, ks, Verbatim, u) case None => None case Some(s) => Some(JsonEscape(s))
  {
    hide DetokenizeFrom, Unmask, JsonEscape, JsonSafe, NoControls;
    RewrittenIs(k, ks, JsonEscaped, JsonEscape(u));
    RewrittenIs(k, ks, Verbatim, u);
    UnmaskAllEscaped(ks, u);
    DetokenizeEscaped(k, Unmask(ks, Verbatim, u), 0);
  }

  /** So a client that reads the rewritten fragment as a JSON string gets the rewritten text, and finds the
      closing quote where it should be. */
  lemma {:induction false} FragmentReadsBack(k: Sealer, ks: seq<Keyword>, u: string, rest: string)
    requires JsonSafe(ks) && NoControls(u) && Rewritten(k, ks, Verbatim, u).Some?
    ensures Rewritten(k, ks, JsonEscaped, JsonEscape(u)).Some?
    ensures ReadString(Rewritten(k, ks, JsonEscaped, JsonEscape(u)).value + "\"" + rest)
         == Some((Rewritten(k, ks, Verbatim, u).value, rest))
  {
    hide Rewritten, JsonEscape, ReadString, JsonSafe, NoControls;
    RewrittenFragment(k, ks, u);
    EscapedTextReadsBack(Rewritten(k, ks, Verbatim, u).value, rest);
  }

  /** In a session: tool input is rewritten so that a client reads in it what the text inside it would become
      as visible text, and thinking is rewritten as visible text is. */
  lemma {:induction false} ToolInputReadsBack(ses: Rewriter.Session, u: string, rest: string)
    requires JsonSafe(ses.keywords) && NoControls(u) && ses.Transform(Rewriter.TextKind, u).Ok?
    ensures ses.Transform(Rewriter.Thinking, u) == ses.Transform(Rewriter.TextKind, u)
    ensures ses.Transform(Rewriter.InputJson, JsonEscape(u)).Ok?
    ensures ReadString(ses.Transform(Rewriter.InputJson, JsonEscape(u)).value + "\"" + rest)
         == Some((ses.Transform(Rewriter.TextKind, u).value, rest))
  {
    hide JsonEscape, ReadString, StreamingCut.Transform, JsonSafe, NoControls;
    FragmentReadsBack(ses.sealer, ses.keywords, u, rest);
  }

  // ---------- where the letter of an escape is taken for text ----------

  const NOVA: Keyword := Keyword("zzz", "nova", true)

  /** A line feed before "ova" is written with an n, which makes it the alias; unmasking it leaves an
      escape that no JSON has. As visible text it would not be touched. */
  lemma {:induction false} ControlBreaksFragment(k: Sealer)
    ensures NOVA.Valid() && JsonEscape("\nova") == "\\nova"
    ensures Rewritten(k, [NOVA], Verbatim, "\nova") == Some("\nova")
    ensures Rewritten(k, [NOVA], JsonEscaped, "\\nova") == Some("\\zzz")
    ensures forall rest :: ReadString("\\zzz" + "\"" + rest) == None
  {
    hide Rewritten, JsonEscape, ReadString;
    assert NOVA.Valid();
    NovaEscaped();
    NovaInText(k);
    NovaInJson(k);
    forall rest ensures ReadString("\\zzz" + "\"" + rest) == None {
      NoSuchEscape("zz" + "\"" + rest);
      assert "\\zzz" + "\"" + rest == ['\\', 'z'] + ("zz" + "\"" + rest);
    }
  }

  lemma {:induction false} NoSuchEscape(rest: string)
    ensures ReadString(['\\', 'z'] + rest) == None
  {
    var t := ['\\', 'z'] + rest;
    assert t[0] == '\\' && t[1] == 'z';
  }

  lemma {:induction false} NovaEscaped()
    ensures JsonEscape("\nova") == "\\nova"
  {
    assert NeedsNoEscape("ova");
    EscapeOfPlain("ova");
    assert "\nova"[1..] == "ova";
    EscapeUnfold("\nova");
  }

  lemma {:induction false} NovaInText(k: Sealer)
    ensures Rewritten(k, [NOVA], Verbatim, "\nova") == Some("\nova")
  {
    var u, w := "\nova", NOVA.Unmasking(Verbatim);
    hide Rewritten, Unmask, SubstituteOutsideSpans, SpanLen, SameText, DetokenizeFrom, Swap.Shaped;
    assert u[1..] == "ova" && [u[0]] + "ova" == u;
    RewrittenIs(k, [NOVA], Verbatim, u);
    OneKeyword(NOVA, Verbatim, u);
    NoBracketNoSpan(u);
    HitBeginsAlike(NOVA, Verbatim, u);
    OutsideStep(w, u);
    ShortTextUntouched(w, "ova");
    BracketFreeRecovers(k, Verbatim, u);
  }

  lemma {:induction false} ZzzIsPlain()
    ensures NOVA.Unmasking(JsonEscaped).Shaped("nova") == "zzz"
  {
    assert "zzz"[1..] == "zz" && "zz"[1..] == "z" && "z"[1..] == "";
    assert JsonEscape("z") == "z" && JsonEscape("zz") == "zz" && JsonEscape("zzz") == "zzz";
  }

  lemma {:induction false} NovaInJson(k: Sealer)
    ensures Rewritten(k, [NOVA], JsonEscaped, "\\nova") == Some("\\zzz")
  {
    var u, w := "\\nova", NOVA.Unmasking(JsonEscaped);
    ExactIsEqual("nova", "nova");
    ZzzIsPlain();
    hide Rewritten, Unmask, SubstituteOutsideSpans, SpanLen, DetokenizeFrom, SameText, Swap.Shaped;
    assert u[1..] == "nova" && "nova"[..4] == "nova" && "nova"[4..] == "";
    RewrittenIs(k, [NOVA], JsonEscaped, u);
    OneKeyword(NOVA, JsonEscaped, u);
    NoBracketNoSpan(u);
    NoBracketNoSpan("nova");
    HitBeginsAlike(NOVA, JsonEscaped, u);
    OutsideStep(w, u);
    OutsideStep(w, "nova");
    NothingToSubstitute(w, "");
    assert "zzz" + "" == "zzz" && [u[0]] + "zzz" == "\\zzz";
    BracketFreeRecovers(k, JsonEscaped, "\\zzz");
  }
}
