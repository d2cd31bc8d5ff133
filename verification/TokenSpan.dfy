/** The token span grammar: `[`, a category, `:TOKEN_`, a payload, `]`.

    A span is read by a small automaton. The regular expression of the source, its hand-written
    prefix walker and its search for a held tail are all related to that automaton here. */
module TokenSpan {
  import opened Text

  const MARKER: string := "TOKEN_"

  predicate IsCategoryChar(c: char) { IsUpper(c) || IsDigit(c) || c == '_' }

  predicate IsPayloadChar(c: char) { IsLetter(c) || IsDigit(c) || c == '_' || c == '-' }

  /** The characters that may stand between the two brackets of a span. */
  predicate IsInnerChar(c: char) { IsPayloadChar(c) || c == ':' }

  predicate NoBrackets(s: string) { '[' !in s && ']' !in s }

  predicate IsCategory(s: string) { s != "" && forall i | 0 <= i < |s| :: IsCategoryChar(s[i]) }

  predicate IsPayload(s: string) { s != "" && forall i | 0 <= i < |s| :: IsPayloadChar(s[i]) }

  function SpanOf(category: string, payload: string): string {
    "[" + category + ":" + MARKER + payload + "]"
  }

  /** Where a reader of the grammar stands. */
  datatype Place =
    | Before
    | CategoryStart
    | InCategory
    | InMarker(seen: nat)
    | PayloadStart
    | InPayload
    | Closed
    | Dead
  {
    /** Strictly between the brackets: some continuation completes the span. */
    predicate Inside() { this != Before && this != Closed && this != Dead && Sane() }

    predicate Sane() { InMarker? ==> seen < |MARKER| }
  }

  function Step(p: Place, c: char): Place {
    match p
    case Before => if c == '[' then CategoryStart else Dead
    case CategoryStart => if IsCategoryChar(c) then InCategory else Dead
    case InCategory => if IsCategoryChar(c) then InCategory else if c == ':' then InMarker(0) else Dead
    case InMarker(k) =>
      if k < |MARKER| && c == MARKER[k] then
        (if k + 1 == |MARKER| then PayloadStart else InMarker(k + 1))
      else Dead
    case PayloadStart => if IsPayloadChar(c) then InPayload else Dead
    case InPayload => if IsPayloadChar(c) then InPayload else if c == ']' then Closed else Dead
    case Closed => Dead
    case Dead => Dead
  }

  function Walk(p: Place, s: string): Place
    decreases |s|
  {
    if s == "" then p else Walk(Step(p, s[0]), s[1..])
  }

  predicate IsSpan(s: string) { Walk(Before, s) == Closed }

  /** A non-empty text that some continuation turns into a span. */
  predicate IsViable(s: string) { Walk(Before, s).Inside() }

  // ---------- walking ----------

  lemma {:induction false} WalkConcat(p: Place, a: string, b: string)
    ensures Walk(p, a + b) == Walk(Walk(p, a), b)
    decreases |a|
  {
    if a == "" {
      assert a + b == b;
    } else {
      assert (a + b)[1..] == a[1..] + b;
      WalkConcat(Step(p, a[0]), a[1..], b);
    }
  }

  lemma {:induction false} WalkDead(s: string)
    ensures Walk(Dead, s) == Dead
    ensures s != "" ==> Walk(Closed, s) == Dead
  {
    if s != "" {
      WalkDead(s[1..]);
    }
  }

  lemma {:induction false} WalkSane(p: Place, s: string)
    requires p.Sane()
    ensures Walk(p, s).Sane()
    decreases |s|
  {
    if s != "" {
      WalkSane(Step(p, s[0]), s[1..]);
    }
  }

  /** Once inside, only inner characters keep the walk alive, and only a final `]` closes it. */
  lemma {:induction false} WalkInside(p: Place, s: string)
    requires p.Inside()
    requires Walk(p, s) != Dead
    ensures Walk(p, s).Inside() ==> forall i | 0 <= i < |s| :: IsInnerChar(s[i])
    ensures !Walk(p, s).Inside() ==>
              && Walk(p, s) == Closed && s != "" && s[|s| - 1] == ']'
              && forall i | 0 <= i < |s| - 1 :: IsInnerChar(s[i])
    decreases |s|
  {
    if s != "" {
      var q := Step(p, s[0]);
      if !q.Inside() {
        if s[1..] != "" {
          WalkDead(s[1..]);
          assert false;
        }
      } else {
        WalkInside(q, s[1..]);
        assert forall i | 1 <= i < |s| :: s[i] == s[1..][i - 1];
      }
    }
  }

  /** The shape of a span or of a viable prefix: one `[`, at the front; a `]` only at the end. */
  lemma {:induction false} SpanShape(s: string)
    requires IsSpan(s) || IsViable(s)
    ensures s != "" && s[0] == '['
    ensures IsSpan(s) ==> |s| > 1 && s[|s| - 1] == ']' && forall i | 0 < i < |s| - 1 :: IsInnerChar(s[i])
    ensures IsViable(s) ==> forall i | 0 < i < |s| :: IsInnerChar(s[i])
  {
    assert s != "";
    if s[0] != '[' {
      WalkDead(s[1..]);
      assert false;
    }
    WalkInside(CategoryStart, s[1..]);
    assert forall i | 1 <= i < |s| :: s[i] == s[1..][i - 1];
  }

  lemma {:induction false} SpanPrefixesAreViable(s: string, n: nat)
    requires IsSpan(s) && 0 < n < |s|
    ensures IsViable(s[..n])
  {
    assert s[..n] + s[n..] == s;
    WalkConcat(Before, s[..n], s[n..]);
    WalkDead(s[n..]);
    WalkSane(Before, s[..n]);
    if Walk(Before, s[..n]) == Before {
      WalkInsideNeverBefore(Before, s[..n]);
    }
  }

  lemma {:induction false} WalkInsideNeverBefore(p: Place, s: string)
    requires s != ""
    ensures Walk(p, s) != Before
    decreases |s|
  {
    if |s| > 1 {
      WalkInsideNeverBefore(Step(p, s[0]), s[1..]);
    }
  }

  lemma {:induction false} CategoryRun(s: string)
    requires forall i | 0 <= i < |s| :: IsCategoryChar(s[i])
    ensures Walk(InCategory, s) == InCategory
  {
    if s != "" {
      CategoryRun(s[1..]);
    }
  }

  lemma {:induction false} PayloadRun(s: string)
    requires forall i | 0 <= i < |s| :: IsPayloadChar(s[i])
    ensures Walk(InPayload, s) == InPayload
  {
    if s != "" {
      PayloadRun(s[1..]);
    }
  }

  lemma {:induction false} MarkerRun()
    ensures Walk(InCategory, ":" + MARKER) == PayloadStart
  {
    var s := ":" + MARKER;
    assert s == ":TOKEN_";
    assert s[1..] == "TOKEN_" && s[1..][1..] == "OKEN_" && "OKEN_"[1..] == "KEN_";
    assert "KEN_"[1..] == "EN_" && "EN_"[1..] == "N_" && "N_"[1..] == "_" && "_"[1..] == "";
    assert Walk(InMarker(5), "_") == PayloadStart;
    assert Walk(InMarker(3), "EN_") == PayloadStart;
    assert Walk(InMarker(1), "OKEN_") == PayloadStart;
  }

  lemma {:induction false} BuiltSpanIsSpan(category: string, payload: string)
    requires IsCategory(category) && IsPayload(payload)
    ensures IsSpan(SpanOf(category, payload))
  {
    var m := ":" + MARKER;
    assert SpanOf(category, payload) == ("[" + category) + m + payload + "]";
    assert ("[" + category)[1..] == category;
    CategoryRun(category[1..]);
    assert Walk(Before, "[" + category) == InCategory;
    WalkConcat(Before, "[" + category, m);
    MarkerRun();
    PayloadRun(payload[1..]);
    WalkConcat(Before, "[" + category + m, payload);
    WalkConcat(Before, "[" + category + m + payload, "]");
    assert Walk(InPayload, "]") == Closed;
  }

  // ---------- the automaton accepts exactly the regular expression ----------

  lemma {:induction false} ReadPayload(s: string)
    requires Walk(InPayload, s) == Closed
    ensures s != "" && s[|s| - 1] == ']' && forall i | 0 <= i < |s| - 1 :: IsPayloadChar(s[i])
  {
    if Step(InPayload, s[0]) == InPayload {
      ReadPayload(s[1..]);
      assert forall i | 1 <= i < |s| :: s[i] == s[1..][i - 1];
    } else {
      WalkDead(s[1..]);
    }
  }

  lemma {:induction false} ReadMarker(k: nat, s: string)
    requires k < |MARKER| && Walk(InMarker(k), s) == Closed
    ensures |MARKER| - k <= |s| && s[..|MARKER| - k] == MARKER[k..]
    ensures Walk(PayloadStart, s[|MARKER| - k..]) == Closed
    decreases |MARKER| - k
  {
    if Step(InMarker(k), s[0]) == Dead {
      WalkDead(s[1..]);
      assert false;
    }
    if k + 1 < |MARKER| {
      ReadMarker(k + 1, s[1..]);
      assert s[1..][|MARKER| - k - 1..] == s[|MARKER| - k..];
      assert s[..|MARKER| - k] == [s[0]] + s[1..][..|MARKER| - k - 1];
    }
  }

  lemma {:induction false} ReadCategory(s: string) returns (k: nat)
    requires Walk(InCategory, s) == Closed
    ensures k < |s| && s[k] == ':' && forall i | 0 <= i < k :: IsCategoryChar(s[i])
    ensures Walk(InMarker(0), s[k + 1..]) == Closed
  {
    if IsCategoryChar(s[0]) {
      var j := ReadCategory(s[1..]);
      k := j + 1;
      assert s[1..][j + 1..] == s[k + 1..];
      assert forall i | 1 <= i <= k :: s[i] == s[1..][i - 1];
    } else {
      if s[0] != ':' {
        WalkDead(s[1..]);
        assert false;
      }
      k := 0;
    }
  }

  lemma {:induction false} MarkerThenPayload(rest: string) returns (payload: string)
    requires Walk(InMarker(0), rest) == Closed
    ensures IsPayload(payload) && rest == MARKER + payload + "]"
  {
    ReadMarker(0, rest);
    var tail := rest[|MARKER|..];
    WalkDead(tail[1..]);
    ReadPayload(tail[1..]);
    payload := tail[..|tail| - 1];
    assert forall i | 1 <= i < |payload| :: payload[i] == tail[1..][i - 1];
    assert tail == payload + "]";
  }

  lemma {:induction false} SpanStart(s: string)
    requires IsSpan(s)
    ensures |s| > 2 && s[0] == '[' && IsCategoryChar(s[1]) && Walk(InCategory, s[2..]) == Closed
  {
    SpanShape(s);
    assert s[1..][1..] == s[2..];
    WalkDead(s[2..]);
    assert Walk(Before, s) == Walk(CategoryStart, s[1..]) == Walk(Step(CategoryStart, s[1]), s[2..]);
  }

  /** The parts of a span: what precedes and what follows the marker. */
  lemma {:induction false} SpanParts(s: string) returns (category: string, payload: string)
    requires IsSpan(s)
    ensures IsCategory(category) && IsPayload(payload) && s == SpanOf(category, payload)
  {
    hide Walk;
    SpanStart(s);
    var k := ReadCategory(s[2..]);
    category := s[1..k + 2];
    payload := MarkerThenPayload(s[2..][k + 1..]);
    assert category == [s[1]] + s[2..][..k];
    assert s == "[" + category + ":" + s[2..][k + 1..];
    assert s == "[" + category + ":" + (MARKER + payload + "]");
  }

  /** The automaton decides the grammar: a text is accepted iff it is a bracketed category,
      marker and payload. */
  lemma {:induction false} AutomatonDecidesGrammar(s: string)
    ensures IsSpan(s) <==> exists c, p :: IsCategory(c) && IsPayload(p) && s == SpanOf(c, p)
  {
    if IsSpan(s) {
      var c, p := SpanParts(s);
    }
    forall c, p | IsCategory(c) && IsPayload(p) && s == SpanOf(c, p) {
      BuiltSpanIsSpan(c, p);
    }
  }

  /** What completes a span from inside it. */
  function Completion(p: Place): string
    requires p.Inside()
  {
    match p
    case CategoryStart => "A:TOKEN_a]"
    case InCategory => ":TOKEN_a]"
    case InMarker(k) => MARKER[k..] + "a]"
    case PayloadStart => "a]"
    case InPayload => "]"
  }

  lemma {:induction false} MarkerTail(k: nat)
    requires k < |MARKER|
    ensures Walk(InMarker(k), MARKER[k..]) == PayloadStart
    decreases |MARKER| - k
  {
    if k + 1 < |MARKER| {
      MarkerTail(k + 1);
      assert MARKER[k..][1..] == MARKER[k + 1..];
    } else {
      assert MARKER[k..][1..] == "";
    }
  }

  lemma {:induction false} CompletionCloses(p: Place)
    requires p.Inside()
    ensures Walk(p, Completion(p)) == Closed
  {
    assert "a]"[1..] == "]";
    assert Walk(PayloadStart, "a]") == Closed;
    match p
    case InMarker(k) =>
      MarkerTail(k);
      WalkConcat(p, MARKER[k..], "a]");
    case InCategory => CategoryCompletion();
    case CategoryStart =>
      CategoryCompletion();
      assert "A:TOKEN_a]"[1..] == ":TOKEN_a]";
    case _ =>
  }

  lemma {:induction false} CategoryCompletion()
    ensures Walk(InCategory, ":TOKEN_a]") == Closed
  {
    MarkerRun();
    assert ":TOKEN_a]" == ":" + MARKER + "a]";
    WalkConcat(InCategory, ":" + MARKER, "a]");
    assert "a]"[1..] == "]";
    assert Walk(PayloadStart, "a]") == Closed;
  }

  /** Viable means exactly: a non-empty proper prefix of some span. */
  lemma {:induction false} ViableIffProperPrefix(s: string)
    requires s != ""
    ensures IsViable(s) <==> exists t :: t != "" && IsSpan(s + t)
  {
    if IsViable(s) {
      var t := Completion(Walk(Before, s));
      CompletionCloses(Walk(Before, s));
      WalkConcat(Before, s, t);
      assert t != "" && IsSpan(s + t);
    }
    forall t | t != "" && IsSpan(s + t) ensures IsViable(s) {
      SpanPrefixesAreViable(s + t, |s|);
      assert (s + t)[..|s|] == s;
    }
  }

  // ---------- the span at the front of a text ----------

  /** Characters read from place `p` until the span closes; 0 when it never does. */
  function ClosesAfter(p: Place, t: string): (n: nat)
    ensures n <= |t|
    ensures n > 0 ==> Walk(p, t[..n]) == Closed
    decreases |t|
  {
    if t == "" then 0
    else
      var q := Step(p, t[0]);
      if q == Closed then
        assert t[..1][1..] == "";
        1
      else
        var m := ClosesAfter(q, t[1..]);
        assert m > 0 ==> t[..m + 1][1..] == t[1..][..m];
        if m == 0 then 0 else m + 1
  }

  /** Length of the span starting at the front of `t`, 0 when none does. */
  function SpanLen(t: string): (n: nat)
    ensures n <= |t|
    ensures n > 0 ==> IsSpan(t[..n])
  {
    ClosesAfter(Before, t)
  }

  lemma {:induction false} ClosesAfterUnique(p: Place, t: string, k: nat)
    requires 0 < k <= |t| && Walk(p, t[..k]) == Closed
    ensures ClosesAfter(p, t) == k
    decreases k
  {
    var q := Step(p, t[0]);
    assert t[..k][1..] == t[1..][..k - 1];
    if q == Closed {
      WalkDead(t[..k][1..]);
    } else {
      assert k > 1;
      ClosesAfterUnique(q, t[1..], k - 1);
    }
  }

  lemma {:induction false} SpanLenUnique(t: string, k: nat)
    requires k <= |t| && IsSpan(t[..k])
    ensures SpanLen(t) == k && k > 1
  {
    SpanShape(t[..k]);
    ClosesAfterUnique(Before, t, k);
  }

  lemma {:induction false} ShorterHasNoSpan(t: string, n: nat)
    requires SpanLen(t) == 0 && n <= |t|
    ensures SpanLen(t[..n]) == 0
  {
    hide SpanLen;
    var m := SpanLen(t[..n]);
    if m > 0 {
      assert t[..n][..m] == t[..m];
      SpanLenUnique(t, m);
    }
  }

  /** Only an opening bracket can start a span. */
  lemma {:induction false} SpanLenNeedsBracket(t: string)
    requires SpanLen(t) > 0
    ensures t[0] == '[' && SpanLen(t) > 1
  {
    SpanShape(t[..SpanLen(t)]);
  }

  /** No span begins in `a` and ends in `b` when the two are put together. */
  ghost predicate NoSpanStraddles(a: string, b: string) {
    forall i, j | 0 <= i < |a| && 0 < j <= |b| :: !IsSpan(a[i..] + b[..j])
  }

  lemma {:induction false} NoSpanStraddlesRest(a: string, b: string, n: nat)
    requires NoSpanStraddles(a, b) && n <= |a|
    ensures NoSpanStraddles(a[n..], b)
  {
    forall i, j | 0 <= i < |a[n..]| && 0 < j <= |b| ensures !IsSpan(a[n..][i..] + b[..j]) {
      assert a[n..][i..] == a[n + i..];
    }
  }

  lemma {:induction false} StraddlingSpan(a: string, b: string, n: nat)
    requires |a| < n <= |a + b| && IsSpan((a + b)[..n])
    ensures 0 < n - |a| <= |b| && IsSpan(a[0..] + b[..n - |a|])
  {
    assert (a + b)[..n] == a[0..] + b[..n - |a|];
  }

  lemma {:induction false} SpanLenOfConcat(a: string, b: string)
    requires a != "" && NoSpanStraddles(a, b)
    ensures SpanLen(a + b) == SpanLen(a)
  {
    var n := SpanLen(a + b);
    if n > |a| {
      StraddlingSpan(a, b, n);
    } else if n > 0 {
      assert (a + b)[..n] == a[..n];
      SpanLenUnique(a, n);
    } else if SpanLen(a) > 0 {
      assert (a + b)[..SpanLen(a)] == a[..SpanLen(a)];
      SpanLenUnique(a + b, SpanLen(a));
    }
  }

  /** Spans cannot cross a position where the text to the right begins with `[`, nor one where the
      text to the left holds none. */
  lemma {:induction false} BracketIsASeam(a: string, b: string)
    requires (b != "" && b[0] == '[') || '[' !in a
    ensures NoSpanStraddles(a, b)
  {
    hide IsSpan;
    forall i, j | 0 <= i < |a| && 0 < j <= |b| ensures !IsSpan(a[i..] + b[..j]) {
      var s := a[i..] + b[..j];
      assert s[0] == a[i];
      assert s[|a| - i] == b[0];
      if IsSpan(s) {
        SpanShape(s);
      }
    }
  }

  lemma {:induction false} SpanThenRest(span: string, last: string)
    requires IsSpan(span)
    ensures NoSpanStraddles(span, last)
  {
    hide IsSpan;
    SpanShape(span);
    forall i, j | 0 <= i < |span| && 0 < j <= |last| ensures !IsSpan(span[i..] + last[..j]) {
      var w := span[i..] + last[..j];
      assert w[0] == span[i] && w[|span| - i - 1] == span[|span| - 1] == ']';
      if IsSpan(w) {
        SpanShape(w);
      }
    }
  }
}
