/** The stream shows, block by block, what rewriting each block's text in one piece would show.

    A block's text is cut into episodes: a run of deltas of one kind, ended by a delta of another
    kind, by any other event of the block, or by the end of the stream. */
module StreamRefinement {
  import opened Text
  import opened TokenSpan
  import opened SpanWalker
  import opened Detokenize
  import opened Keywords
  import opened StreamingCut
  import opened Rewriter
  import RewriterRuns

  datatype Episode = Episode(kind: Kind, text: string)

  /** The episodes of one block so far: the ended ones and the running one. */
  datatype Ledger = Ledger(closed: seq<Episode>, open: Option<Episode>) {
    function End(): Ledger {
      match open
      case None => this
      case Some(e) => Ledger(closed + [e], None)
    }
  }

  const NO_EPISODE := Ledger([], None)

  function Advance(l: Ledger, i: nat, a: Action): Ledger {
    match a
    case Pass => l
    case Text(index, kind, payload, _) =>
      if index != i then l
      else if l.open.Some? && l.open.value.kind == kind then l.(open := Some(Episode(kind, l.open.value.text + payload)))
      else l.End().(open := Some(Episode(kind, payload)))
    case Flush(index) => if index == i then l.End() else l
    case Close(index) => if index == i then l.End() else l
  }

  /** The ledger of block `i` after some events, read off the input alone. */
  function LedgerAfter(codec: Codec, l: Ledger, i: nat, events: seq<Event>): Ledger
    decreases |events|
  {
    if events == [] then l
    else
      match Classify(codec, events[0].data)
      case Err(_) => l
      case Ok(a) => LedgerAfter(codec, Advance(l, i, a), i, events[1..])
  }

  function Episodes(codec: Codec, i: nat, events: seq<Event>): seq<Episode> {
    LedgerAfter(codec, NO_EPISODE, i, events).End().closed
  }

  function OneShot(ses: Session, e: Episode): Option<string> {
    Rewritten(ses.sealer, ses.keywords, RenderingOf(e.kind), e.text)
  }

  /** Text as it is shown: each character with the kind it is shown as, so that neighbouring texts of one
      kind are one piece and texts of different kinds never are. */
  type Shown = seq<(Kind, char)>

  function Mark(kind: Kind, text: string): Shown {
    seq(|text|, i requires 0 <= i < |text| => (kind, text[i]))
  }

  function MarkOption(kind: Kind, text: Option<string>): Option<Shown> {
    if text.None? then None else Some(Mark(kind, text.value))
  }

  /** Each episode rewritten in one piece, as its kind. */
  function OneShots(ses: Session, episodes: seq<Episode>): Option<Shown> {
    if episodes == [] then Some([])
    else Join(MarkOption(episodes[0].kind, OneShot(ses, episodes[0])), OneShots(ses, episodes[1..]))
  }

  /** What a reader of the output puts together for block `i`. */
  function ShownText(outs: seq<Out>, i: nat): Shown {
    if outs == [] then []
    else (if outs[0].Delta? && outs[0].index == i then Mark(outs[0].kind, outs[0].text) else []) + ShownText(outs[1..], i)
  }

  /** No span is longer than what may be held plus its closing bracket. */
  ghost predicate SpansFit(text: string) {
    forall p | 0 <= p < |text| :: SpanLen(text[p..]) <= MAX_TOKEN_SPAN_LEN + 1
  }

  ghost predicate EpisodesFit(episodes: seq<Episode>) {
    forall e | e in episodes :: SpansFit(e.text)
  }

  /** The conditions of the cut theorem, for both ways of writing replacements. */
  ghost predicate WellBehaved(ses: Session) {
    && ses.Valid() && OverlapFree(ses.keywords)
    && Compatible(ses.keywords, Verbatim) && Compatible(ses.keywords, JsonEscaped)
  }

  // ---------- small facts ----------

  lemma {:induction false} ShownConcat(a: seq<Out>, b: seq<Out>, i: nat)
    ensures ShownText(a + b, i) == ShownText(a, i) + ShownText(b, i)
    decreases |a|
  {
    if a == [] {
      assert a + b == b;
    } else {
      assert (a + b)[0] == a[0] && (a + b)[1..] == a[1..] + b;
      ShownConcat(a[1..], b, i);
    }
  }

  lemma {:induction false} MarkConcat(kind: Kind, a: string, b: string)
    ensures Mark(kind, a + b) == Mark(kind, a) + Mark(kind, b)
  {
  }

  lemma {:induction false} ShownEmit(index: nat, kind: Kind, text: string, extras: Extras, named: bool, i: nat)
    ensures ShownText(Emit(index, kind, text, extras, named), i) == if index == i then Mark(kind, text) else []
  {
    var o := Delta(index, kind, text, extras, named);
    assert [o][1..] == [] && Mark(kind, text) + [] == Mark(kind, text);
  }

  lemma {:induction false} ShownRaw(outs: seq<Out>, raw: seq<Byte>, i: nat)
    ensures ShownText(outs + [Raw(raw)], i) == ShownText(outs, i)
  {
    ShownConcat(outs, [Raw(raw)], i);
    assert [Raw(raw)][1..] == [];
  }

  lemma {:induction false} OneShotsSnoc(ses: Session, a: seq<Episode>, e: Episode)
    ensures OneShots(ses, a + [e]) == Join(OneShots(ses, a), MarkOption(e.kind, OneShot(ses, e)))
  {
    hide OneShot, MarkOption;
    if a == [] {
      assert a + [e] == [e] && [e][1..] == [];
      var x := MarkOption(e.kind, OneShot(ses, e));
      if x.Some? {
        assert x.value + [] == x.value && [] + x.value == x.value;
      }
    } else {
      assert (a + [e])[0] == a[0] && (a + [e])[1..] == a[1..] + [e];
      OneShotsSnoc(ses, a[1..], e);
      JoinAssociative(MarkOption(a[0].kind, OneShot(ses, a[0])), OneShots(ses, a[1..]), MarkOption(e.kind, OneShot(ses, e)));
    }
  }

  lemma {:induction false} EmptyUnmasked(ks: seq<Keyword>, r: Rendering)
    ensures Unmask(ks, r, "") == ""
  {
    if ks != [] {
      NothingToSubstitute(ks[0].Unmasking(r), "");
      EmptyUnmasked(ks[1..], r);
    }
  }

  lemma {:induction false} EmptyOneShot(ses: Session, kind: Kind)
    ensures OneShot(ses, Episode(kind, "")) == Some("")
  {
    EmptyUnmasked(ses.keywords, RenderingOf(kind));
  }

  lemma {:induction false} TransformIsOneShot(ses: Session, kind: Kind, text: string)
    ensures ses.Transform(kind, text).ToOption() == OneShot(ses, Episode(kind, text))
  {
  }

  // ---------- the invariant ----------

  /** What streaming has shown of a running episode, and will show: for every continuation, the text
      shown so far and the rewrite of what is held and follows make up the one-shot rewrite. */
  ghost predicate Shows(ses: Session, shown: string, pending: string, e: Episode) {
    && IsSuffix(pending, e.text)
    && forall f | SpansFit(e.text + f) ::
         Join(Some(shown), OneShot(ses, Episode(e.kind, pending + f))) == OneShot(ses, Episode(e.kind, e.text + f))
  }

  /** What has been shown of the running episode. */
  function Running(l: Ledger, shown: string): Shown {
    if l.open.None? then [] else Mark(l.open.value.kind, shown)
  }

  ghost predicate Tracks(ses: Session, s: Sink, i: nat, l: Ledger, ended: Shown, shown: string) {
    && OneShots(ses, l.closed) == Some(ended)
    && match l.open
       case None => shown == "" && (i in s.blocks ==> s.blocks[i].pending == "")
       case Some(e) => i in s.blocks && s.blocks[i].kind == e.kind && Shows(ses, shown, s.blocks[i].pending, e)
  }

  lemma {:induction false} FitTail(whole: string, tail: string, p: nat)
    requires SpansFit(whole) && IsSuffix(tail, whole) && p < |tail|
    ensures SpanLen(tail[p..]) <= MAX_TOKEN_SPAN_LEN + 1
  {
    hide SpanLen;
    assert tail[p..] == whole[|whole| - |tail| + p..];
  }

  /** In a text whose spans fit, a tail released for being over the cap never becomes a span. */
  lemma {:induction false} FitMeansHeldFits(whole: string, text: string, more: string)
    requires SpansFit(whole) && IsSuffix(text + more, whole)
    ensures HeldSpanFits(text, more)
  {
    hide SpanLen, IsViable, HeldSpan;
    var held := HeldSpan(text);
    if held.Some? && |text| - held.value > MAX_TOKEN_SPAN_LEN {
      var p := held.value;
      HeldSpanIsViable(text, p);
      FitTail(whole, text + more, p);
      assert (text + more)[p..] == text[p..] + more;
      var n := SpanLen(text[p..] + more);
      ViableHasNoSpan(text[p..]);
      if 0 < n <= |text[p..]| {
        assert (text[p..] + more)[..n] == text[p..][..n];
        SpanLenUnique(text[p..], n);
      }
    }
  }

  /** One delta: the safe prefix is emitted, and the invariant goes on. */
  lemma {:induction false} GrowShows(ses: Session, shown: string, pending: string, e: Episode, payload: string, f: string)
    requires WellBehaved(ses) && Shows(ses, shown, pending, e)
    requires SpansFit(e.text + payload + f)
    ensures var text := pending + payload;
            var safe := SafeLen(text, ses.keywords);
            OneShot(ses, Episode(e.kind, e.text + payload + f))
            == Join(Join(Some(shown), OneShot(ses, Episode(e.kind, text[..safe]))), OneShot(ses, Episode(e.kind, text[safe..] + f)))
  {
    hide SafeLen, SpansFit, Rewritten, Compatible, OverlapFree;
    var text := pending + payload;
    var safe := SafeLen(text, ses.keywords);
    assert e.text + payload + f == e.text + (payload + f);
    assert pending + (payload + f) == text + f;
    assert IsSuffix(text + f, e.text + payload + f);
    FitMeansHeldFits(e.text + payload + f, text, f);
    CutTheorem(ses.sealer, ses.keywords, RenderingOf(e.kind), text, f);
    JoinAssociative(Some(shown), OneShot(ses, Episode(e.kind, text[..safe])), OneShot(ses, Episode(e.kind, text[safe..] + f)));
  }

  lemma {:induction false} BeginShows(ses: Session, kind: Kind)
    ensures Shows(ses, "", "", Episode(kind, ""))
  {
    hide OneShot;
    forall f ensures Join(Some(""), OneShot(ses, Episode(kind, "" + f))) == OneShot(ses, Episode(kind, "" + f)) {
      var x := OneShot(ses, Episode(kind, "" + f));
      if x.Some? {
        assert "" + x.value == x.value;
      }
    }
  }

  lemma {:induction false} GrowKeepsShowing(ses: Session, s: Sink, i: nat, e: Episode, shown: string, pending: string, payload: string, extras: Extras)
    returns (more: string)
    requires WellBehaved(ses) && Shows(ses, shown, pending, e)
    requires pending == if i in s.blocks then s.blocks[i].pending else ""
    ensures var grown := Grow(ses, s, i, e.kind, payload, extras);
            var e' := Episode(e.kind, e.text + payload);
            && (grown.Ok? ==>
                  && i in grown.value.0.blocks && grown.value.0.blocks[i].kind == e.kind
                  && ShownText(grown.value.1, i) == Mark(e.kind, more)
                  && Shows(ses, shown + more, grown.value.0.blocks[i].pending, e'))
            && (grown.Err? ==>
              && grown.error.DetokenizeFailed?
              && forall f | SpansFit(e'.text + f) :: OneShot(ses, Episode(e.kind, e'.text + f)) == None)
  {
    hide SafeLen, SpansFit, OneShot, StreamingCut.Transform, WellBehaved, Emit;
    var text := pending + payload;
    var safe := SafeLen(text, ses.keywords);
    var e' := Episode(e.kind, e.text + payload);
    TransformIsOneShot(ses, e.kind, text[..safe]);
    var x := if safe == 0 then Some("") else OneShot(ses, Episode(e.kind, text[..safe]));
    more := if x.Some? then x.value else "";
    if safe == 0 {
      EmptyOneShot(ses, e.kind);
      assert text[..safe] == "";
    }
    forall f | SpansFit(e'.text + f)
      ensures OneShot(ses, Episode(e.kind, e'.text + f)) == Join(Join(Some(shown), x), OneShot(ses, Episode(e.kind, text[safe..] + f)))
    {
      GrowShows(ses, shown, pending, e, payload, f);
    }
    if x.Some? {
      if safe != 0 {
        ShownEmit(i, e.kind, x.value, extras, s.useEventNames, i);
      } else {
        assert shown + "" == shown && Mark(e.kind, "") == [];
      }
      assert IsSuffix(text[safe..], e'.text);
    }
  }

  /** Flushing shows the rest of the running episode, or fails as its one-shot rewrite does. */
  lemma {:induction false} FlushShows(ses: Session, s: Sink, i: nat, l: Ledger, ended: Shown, shown: string)
    requires Tracks(ses, s, i, l, ended, shown)
    requires l.open.Some? ==> SpansFit(l.open.value.text)
    ensures var flushed := FlushBlock(ses, s, i);
            && (flushed.Ok? ==>
                  Tracks(ses, flushed.value.0, i, l.End(), ended + (Running(l, shown) + ShownText(flushed.value.1, i)), ""))
            && (flushed.Err? ==> flushed.error.DetokenizeFailed? && OneShots(ses, l.End().closed) == None)
  {
    hide SpansFit, OneShot, StreamingCut.Transform, Emit, Mark;
    match l.open {
      case None =>
        assert ended + ([] + []) == ended;
      case Some(e) =>
        OneShotsSnoc(ses, l.closed, e);
        var pending := s.blocks[i].pending;
        assert e.text + "" == e.text && pending + "" == pending;
        assert Join(Some(shown), OneShot(ses, Episode(e.kind, pending))) == OneShot(ses, e);
        if pending == "" {
          EmptyOneShot(ses, e.kind);
          assert shown + "" == shown && Mark(e.kind, shown) + [] == Mark(e.kind, shown);
        } else {
          TransformIsOneShot(ses, e.kind, pending);
          var x := OneShot(ses, Episode(e.kind, pending));
          if x.Some? {
            ShownEmit(i, e.kind, x.value, s.blocks[i].extras, s.useEventNames, i);
            MarkConcat(e.kind, shown, x.value);
          }
        }
    }
  }

  lemma {:induction false} OtherBlocksFlush(ses: Session, s: Sink, index: nat, i: nat)
    requires index != i && FlushBlock(ses, s, index).Ok?
    ensures var (t, outs) := FlushBlock(ses, s, index).value;
            && ShownText(outs, i) == []
            && (i in t.blocks <==> i in s.blocks) && (i in s.blocks ==> t.blocks[i] == s.blocks[i])
            && t.useEventNames == s.useEventNames
  {
    hide StreamingCut.Transform, Emit;
    if index in s.blocks && s.blocks[index].pending != "" {
      var b := s.blocks[index];
      ShownEmit(index, b.kind, ses.Transform(b.kind, b.pending).value, b.extras, s.useEventNames, i);
    }
  }

  lemma {:induction false} OtherBlocksGrow(ses: Session, s: Sink, index: nat, kind: Kind, payload: string, extras: Extras, i: nat)
    requires index != i && RewriteDelta(ses, s, index, kind, payload, extras).Ok?
    ensures var (t, outs) := RewriteDelta(ses, s, index, kind, payload, extras).value;
            && ShownText(outs, i) == []
            && (i in t.blocks <==> i in s.blocks) && (i in s.blocks ==> t.blocks[i] == s.blocks[i])
  {
    hide StreamingCut.Transform, Emit, SafeLen, FlushBlock;
    var t := s;
    var flushed: seq<Out> := [];
    if index in s.blocks && s.blocks[index].kind != kind {
      OtherBlocksFlush(ses, s, index, i);
      t := CloseBlock(ses, s, index).value.0;
      flushed := CloseBlock(ses, s, index).value.1;
    }
    var pending := (if index in t.blocks then t.blocks[index].pending else "") + payload;
    var safe := SafeLen(pending, ses.keywords);
    var grown := Grow(ses, t, index, kind, payload, extras).value.1;
    ShownConcat(flushed, grown, i);
    if safe != 0 {
      ShownEmit(index, kind, ses.Transform(kind, pending[..safe]).value, extras, t.useEventNames, i);
    }
  }

  // ---------- one event ----------

  /** One text delta of the block itself. */
  lemma {:induction false} DeltaTracks(ses: Session, s: Sink, i: nat, l: Ledger, ended: Shown, shown: string,
                    kind: Kind, payload: string, extras: Extras)
    returns (ended': Shown, shown': string)
    requires WellBehaved(ses) && Tracks(ses, s, i, l, ended, shown)
    requires l.open.Some? && l.open.value.kind != kind ==> SpansFit(l.open.value.text)
    ensures var l' := Advance(l, i, Text(i, kind, payload, extras));
            var r := RewriteDelta(ses, s, i, kind, payload, extras);
            && (r.Ok? ==>
                  && Tracks(ses, r.value.0, i, l', ended', shown')
                  && ended' + Running(l', shown') == ended + Running(l, shown) + ShownText(r.value.1, i))
            && (r.Err? ==>
                  && r.error.DetokenizeFailed?
                  && (OneShots(ses, l'.closed) == None
                      || forall f | SpansFit(l'.open.value.text + f) ::
                           OneShot(ses, Episode(kind, l'.open.value.text + f)) == None))
  {
    hide SpansFit, OneShot, StreamingCut.Transform, WellBehaved, SafeLen, FlushBlock, Grow, Shows, ShownText, Mark;
    ended', shown' := ended, shown;
    if l.open.Some? && l.open.value.kind == kind {
      var e := l.open.value;
      var more := GrowKeepsShowing(ses, s, i, e, shown, s.blocks[i].pending, payload, extras);
      shown' := shown + more;
      MarkConcat(kind, shown, more);
      AssocText(ended, Mark(kind, shown), Mark(kind, more));
    } else {
      BeginShows(ses, kind);
      assert "" + payload == payload;
      if i in s.blocks && s.blocks[i].kind != kind {
        FlushShows(ses, s, i, l, ended, shown);
        var flushed := FlushBlock(ses, s, i);
        if flushed.Ok? {
          var t := CloseBlock(ses, s, i).value.0;
          var tail := ShownText(flushed.value.1, i);
          ended' := ended + (Running(l, shown) + tail);
          shown' := GrowKeepsShowing(ses, t, i, Episode(kind, ""), "", "", payload, extras);
          assert "" + shown' == shown';
          var grown := Grow(ses, t, i, kind, payload, extras);
          if grown.Ok? {
            ShownConcat(flushed.value.1, grown.value.1, i);
            AssocText(ended, Running(l, shown), tail);
            AssocText(ended + Running(l, shown), tail, Mark(kind, shown'));
          }
        }
      } else {
        shown' := GrowKeepsShowing(ses, s, i, Episode(kind, ""), "", "", payload, extras);
        assert "" + shown' == shown' && ended + [] == ended;
      }
    }
  }

  lemma {:induction false} AssocText(a: Shown, b: Shown, c: Shown)
    ensures a + (b + c) == (a + b) + c
  {
  }

  lemma {:induction false} EventTracks(ses: Session, s: Sink, i: nat, l: Ledger, ended: Shown, shown: string, e: Event)
    returns (ended': Shown, shown': string)
    requires WellBehaved(ses) && Tracks(ses, s, i, l, ended, shown)
    requires Classify(ses.codec, e.data).Ok? && OnEvent(ses, s, e).Ok?
    requires var l' := Advance(l, i, Classify(ses.codec, e.data).value); EpisodesFit(l'.closed)
    ensures Tracks(ses, OnEvent(ses, s, e).value.0, i, Advance(l, i, Classify(ses.codec, e.data).value), ended', shown')
    ensures ended' + Running(Advance(l, i, Classify(ses.codec, e.data).value), shown')
         == ended + Running(l, shown) + ShownText(OnEvent(ses, s, e).value.1, i)
  {
    hide SpansFit, OneShot, StreamingCut.Transform, WellBehaved, FlushBlock, RewriteDelta, Classify, Shows, OneShots, ShownText, Mark;
    var a := Classify(ses.codec, e.data).value;
    var l' := Advance(l, i, a);
    ended', shown' := ended, shown;
    NothingAdded(ended + Running(l, shown));
    assert l.open.Some? && l'.closed == l.closed + [l.open.value] ==> l.open.value in l'.closed;
    match a {
      case Pass =>
        assert [] + [Raw(e.raw)] == [Raw(e.raw)];
        ShownRaw([], e.raw, i);
        NothingShown(i);
      case Text(index, kind, payload, extras) =>
        var s' := s.(useEventNames := e.named);
        if index == i {
          ended', shown' := DeltaTracks(ses, s', i, l, ended, shown, kind, payload, extras);
        } else {
          OtherBlocksGrow(ses, s', index, kind, payload, extras, i);
        }
      case _ =>
        var index := a.index;
        var flushed := FlushBlock(ses, s, index).value.1;
        ShownRaw(flushed, e.raw, i);
        if index == i {
          FlushShows(ses, s, i, l, ended, shown);
          ended', shown' := ended + (Running(l, shown) + ShownText(flushed, i)), "";
          NothingAdded(ended');
          AssocText(ended, Running(l, shown), ShownText(flushed, i));
        } else {
          OtherBlocksFlush(ses, s, index, i);
        }
    }
  }

  lemma {:induction false} NothingAdded(t: Shown)
    ensures t + [] == t
  {
  }

  lemma {:induction false} NothingShown(i: nat)
    ensures ShownText([], i) == []
  {
  }

  // ---------- whole runs ----------

  predicate Parsed(codec: Codec, events: seq<Event>) {
    forall e | e in events :: Classify(codec, e.data).Ok?
  }

  /** Ended episodes stay. */
  lemma {:induction false} EpisodesOnlyGrow(codec: Codec, l: Ledger, i: nat, events: seq<Event>)
    ensures l.closed <= LedgerAfter(codec, l, i, events).closed
    ensures l.closed <= LedgerAfter(codec, l, i, events).End().closed
    decreases |events|
  {
    hide Classify;
    if events != [] && Classify(codec, events[0].data).Ok? {
      EpisodesOnlyGrow(codec, Advance(l, i, Classify(codec, events[0].data).value), i, events[1..]);
    }
  }

  /** A running episode ends up among them, possibly longer. */
  lemma {:induction false} RunningEpisodeEnds(codec: Codec, l: Ledger, i: nat, events: seq<Event>) returns (f: string)
    requires l.open.Some?
    ensures Episode(l.open.value.kind, l.open.value.text + f) in LedgerAfter(codec, l, i, events).End().closed
    decreases |events|
  {
    hide Classify;
    var e := l.open.value;
    assert e.text + "" == e.text;
    f := "";
    if events == [] || Classify(codec, events[0].data).Err? {
      assert l.End().closed[|l.closed|] == e;
    } else {
      var l' := Advance(l, i, Classify(codec, events[0].data).value);
      if l'.closed == l.closed {
        var g := RunningEpisodeEnds(codec, l', i, events[1..]);
        f := l'.open.value.text[|e.text|..] + g;
        assert e.text + f == l'.open.value.text + g;
      } else {
        EpisodesOnlyGrow(codec, l', i, events[1..]);
        assert l'.closed[|l.closed|] == e;
        assert LedgerAfter(codec, l', i, events[1..]).End().closed[|l.closed|] == e;
      }
    }
  }

  lemma {:induction false} SomeFailure(ses: Session, episodes: seq<Episode>, e: Episode)
    requires e in episodes && OneShot(ses, e) == None
    ensures OneShots(ses, episodes) == None
  {
    hide OneShot;
    if episodes[0] != e {
      SomeFailure(ses, episodes[1..], e);
    }
  }

  lemma {:induction false} PrefixFailure(ses: Session, a: seq<Episode>, b: seq<Episode>)
    requires a <= b && OneShots(ses, a) == None
    ensures OneShots(ses, b) == None
  {
    hide OneShot;
    assert a[0] == b[0] && a[1..] <= b[1..];
    if OneShot(ses, a[0]).Some? {
      PrefixFailure(ses, a[1..], b[1..]);
    }
  }

  /** A run of events that succeeds shows, for every block, the one-shot rewrite of its ended
      episodes and what the invariant says of the running one. */
  lemma {:induction false} EventsTrack(ses: Session, s: Sink, i: nat, l: Ledger, ended: Shown, shown: string, events: seq<Event>)
    returns (ended': Shown, shown': string)
    requires WellBehaved(ses) && Tracks(ses, s, i, l, ended, shown)
    requires Parsed(ses.codec, events) && OnEvents(ses, s, events).Ok?
    requires EpisodesFit(LedgerAfter(ses.codec, l, i, events).closed)
    ensures Tracks(ses, OnEvents(ses, s, events).value.0, i, LedgerAfter(ses.codec, l, i, events), ended', shown')
    ensures ended' + Running(LedgerAfter(ses.codec, l, i, events), shown')
         == ended + Running(l, shown) + ShownText(OnEvents(ses, s, events).value.1, i)
    decreases |events|
  {
    hide OnEvent, Tracks, WellBehaved, Classify, SpansFit, Running;
    ended', shown' := ended, shown;
    if events == [] {
      NothingAdded(ended + Running(l, shown));
    } else {
      var e := events[0];
      var l' := Advance(l, i, Classify(ses.codec, e.data).value);
      EpisodesOnlyGrow(ses.codec, l', i, events[1..]);
      FitPrefix(l'.closed, LedgerAfter(ses.codec, l', i, events[1..]).closed);
      ended', shown' := EventTracks(ses, s, i, l, ended, shown, e);
      var (t, outs) := OnEvent(ses, s, e).value;
      assert forall x | x in events[1..] :: x in events;
      ended', shown' := EventsTrack(ses, t, i, l', ended', shown', events[1..]);
      var more := OnEvents(ses, t, events[1..]).value.1;
      ShownConcat(outs, more, i);
      AssocText(ended + Running(l, shown), ShownText(outs, i), ShownText(more, i));
    }
  }

  lemma {:induction false} FitPrefix(a: seq<Episode>, b: seq<Episode>)
    requires a <= b && EpisodesFit(b)
    ensures EpisodesFit(a)
  {
    hide SpansFit;
    assert forall e | e in a :: e in b;
  }

  // ---------- runs that fail ----------

  /** The block at which a run of events stops. */
  function FailingBlock(ses: Session, s: Sink, events: seq<Event>): nat
    decreases |events|
  {
    if events == [] then 0
    else
      match OnEvent(ses, s, events[0])
      case Ok((t, _)) => FailingBlock(ses, t, events[1..])
      case Err(_) =>
        match Classify(ses.codec, events[0].data)
        case Ok(Text(index, _, _, _)) => index
        case Ok(Flush(index)) => index
        case Ok(Close(index)) => index
        case _ => 0
  }

  lemma {:induction false} TracksWhateverTheName(ses: Session, s: Sink, i: nat, l: Ledger, ended: Shown, shown: string, named: bool)
    requires Tracks(ses, s, i, l, ended, shown)
    ensures Tracks(ses, s.(useEventNames := named), i, l, ended, shown)
  {
  }

  /** When an event fails, so does the one-shot rewrite of an episode of its block, now or as it
      will have grown. */
  lemma {:induction false} EventFails(ses: Session, s: Sink, i: nat, l: Ledger, ended: Shown, shown: string, events: seq<Event>)
    requires WellBehaved(ses) && Tracks(ses, s, i, l, ended, shown)
    requires events != [] && Parsed(ses.codec, events) && OnEvent(ses, s, events[0]).Err?
    requires i == FailingBlock(ses, s, events)
    requires EpisodesFit(LedgerAfter(ses.codec, l, i, events).End().closed)
    ensures OnEvent(ses, s, events[0]).error.DetokenizeFailed?
    ensures OneShots(ses, LedgerAfter(ses.codec, l, i, events).End().closed) == None
  {
    hide SpansFit, OneShot, WellBehaved, FlushBlock, RewriteDelta, Classify, Shows, OneShots, Tracks;
    var e := events[0];
    assert e in events;
    var a := Classify(ses.codec, e.data).value;
    var l' := Advance(l, i, a);
    var after := LedgerAfter(ses.codec, l', i, events[1..]);
    EpisodesOnlyGrow(ses.codec, l', i, events[1..]);
    FitPrefix(l'.closed, after.End().closed);
    if l.open.Some? && l'.closed != l.closed {
      assert l'.closed[|l.closed|] == l.open.value;
      assert SpansFit(l.open.value.text);
    }
    match a {
      case Text(index, kind, payload, extras) =>
        TracksWhateverTheName(ses, s, i, l, ended, shown, e.named);
        var _, _ := DeltaTracks(ses, s.(useEventNames := e.named), i, l, ended, shown, kind, payload, extras);
        if OneShots(ses, l'.closed) == None {
          PrefixFailure(ses, l'.closed, after.End().closed);
        } else {
          var f := RunningEpisodeEnds(ses.codec, l', i, events[1..]);
          SomeFailure(ses, after.End().closed, Episode(kind, l'.open.value.text + f));
        }
      case _ =>
        FlushShows(ses, s, i, l, ended, shown);
        PrefixFailure(ses, l'.closed, after.End().closed);
    }
  }

  lemma {:induction false} EventsFail(ses: Session, s: Sink, i: nat, l: Ledger, ended: Shown, shown: string, events: seq<Event>)
    requires WellBehaved(ses) && Tracks(ses, s, i, l, ended, shown)
    requires Parsed(ses.codec, events) && OnEvents(ses, s, events).Err?
    requires i == FailingBlock(ses, s, events)
    requires EpisodesFit(LedgerAfter(ses.codec, l, i, events).End().closed)
    ensures OnEvents(ses, s, events).error.DetokenizeFailed?
    ensures OneShots(ses, LedgerAfter(ses.codec, l, i, events).End().closed) == None
    decreases |events|
  {
    hide OnEvent, Tracks, WellBehaved, Classify, SpansFit, OneShots;
    var e := events[0];
    assert e in events;
    if OnEvent(ses, s, e).Err? {
      EventFails(ses, s, i, l, ended, shown, events);
    } else {
      var l' := Advance(l, i, Classify(ses.codec, e.data).value);
      EpisodesOnlyGrow(ses.codec, l', i, events[1..]);
      var after := LedgerAfter(ses.codec, l', i, events[1..]);
      FitPrefix(l'.closed, after.End().closed);
      var ended', shown' := EventTracks(ses, s, i, l, ended, shown, e);
      assert forall x | x in events[1..] :: x in events;
      EventsFail(ses, OnEvent(ses, s, e).value.0, i, l', ended', shown', events[1..]);
    }
  }

  // ---------- the end of the stream ----------

  /** Flushing every block ends the running episode of each. */
  lemma {:induction false} FlushAllShows(ses: Session, s: Sink, i: nat, l: Ledger, ended: Shown, shown: string, indexes: seq<nat>)
    requires Tracks(ses, s, i, l, ended, shown) && (l.open.Some? ==> SpansFit(l.open.value.text))
    requires FlushBlocks(ses, s, indexes).Ok? && (l.open.Some? ==> i in indexes)
    ensures OneShots(ses, l.End().closed) == Some(ended + Running(l, shown) + ShownText(FlushBlocks(ses, s, indexes).value.1, i))
    decreases |indexes|
  {
    hide FlushBlock, Shows, SpansFit, Mark;
    if indexes == [] {
      NothingAdded(ended);
    } else {
      var (t, outs) := FlushBlock(ses, s, indexes[0]).value;
      var more := FlushBlocks(ses, t, indexes[1..]).value.1;
      ShownConcat(outs, more, i);
      var now, later := ShownText(outs, i), ShownText(more, i);
      if indexes[0] == i {
        FlushShows(ses, s, i, l, ended, shown);
        FlushAllShows(ses, t, i, l.End(), ended + (Running(l, shown) + now), "", indexes[1..]);
        NothingAdded(ended + (Running(l, shown) + now));
        AssocText(ended, Running(l, shown), now);
        AssocText(ended + Running(l, shown), now, later);
      } else {
        OtherBlocksFlush(ses, s, indexes[0], i);
        FlushAllShows(ses, t, i, l, ended, shown, indexes[1..]);
        assert [] + later == later;
      }
    }
  }

  lemma {:induction false} FlushAllFails(ses: Session, s: Sink, indexes: seq<nat>) returns (i: nat)
    requires FlushBlocks(ses, s, indexes).Err?
    ensures FlushBlock(ses, s, i).Err? && FlushBlock(ses, s, i).error == FlushBlocks(ses, s, indexes).error
    decreases |indexes|
  {
    hide FlushBlock;
    if FlushBlock(ses, s, indexes[0]).Err? {
      i := indexes[0];
    } else {
      var t := FlushBlock(ses, s, indexes[0]).value.0;
      i := FlushAllFails(ses, t, indexes[1..]);
      FlushedIsEmpty(ses, s, indexes[0], i);
    }
  }

  lemma {:induction false} FlushedIsEmpty(ses: Session, s: Sink, index: nat, i: nat)
    requires FlushBlock(ses, s, index).Ok? && FlushBlock(ses, FlushBlock(ses, s, index).value.0, i).Err?
    ensures FlushBlock(ses, s, i) == FlushBlock(ses, FlushBlock(ses, s, index).value.0, i)
  {
    hide StreamingCut.Transform, Emit;
  }

  lemma {:induction false} AscendingHolds(s: set<nat>, i: nat)
    requires i in s
    ensures i in Ascending(s)
  {
    if i != MinOf(s) {
      AscendingHolds(s - {MinOf(s)}, i);
    }
  }

  /** A whole stream of events, from the empty state to the final flush. */
  ghost function RunEvents(ses: Session, events: seq<Event>): Result<seq<Out>, RewriteError> {
    match OnEvents(ses, FRESH.sink, events)
    case Err(e) => Err(e)
    case Ok((s, outs)) =>
      match FlushBlocks(ses, s, Ascending(s.blocks.Keys))
      case Err(e) => Err(e)
      case Ok((_, more)) => Ok(outs + more)
  }

  ghost predicate AllEpisodesFit(codec: Codec, events: seq<Event>) {
    forall i :: EpisodesFit(Episodes(codec, i, events))
  }

  lemma {:induction false} NothingTracked(ses: Session, i: nat)
    ensures Tracks(ses, FRESH.sink, i, NO_EPISODE, [], "")
  {
  }

  lemma {:induction false} FitLedger(codec: Codec, i: nat, events: seq<Event>)
    requires EpisodesFit(Episodes(codec, i, events))
    ensures var l := LedgerAfter(codec, NO_EPISODE, i, events);
            EpisodesFit(l.closed) && (l.open.Some? ==> SpansFit(l.open.value.text))
  {
    hide SpansFit, LedgerAfter;
    var l := LedgerAfter(codec, NO_EPISODE, i, events);
    FitPrefix(l.closed, l.End().closed);
    if l.open.Some? {
      assert l.End().closed[|l.closed|] == l.open.value;
    }
  }

  lemma {:induction false} RunShows(ses: Session, events: seq<Event>, i: nat)
    requires WellBehaved(ses) && Parsed(ses.codec, events) && EpisodesFit(Episodes(ses.codec, i, events))
    requires RunEvents(ses, events).Ok?
    ensures OneShots(ses, Episodes(ses.codec, i, events)) == Some(ShownText(RunEvents(ses, events).value, i))
  {
    hide OnEvents, FlushBlocks, WellBehaved, SpansFit, OneShots, LedgerAfter, Ascending, Shows;
    NothingTracked(ses, i);
    FitLedger(ses.codec, i, events);
    var l := LedgerAfter(ses.codec, NO_EPISODE, i, events);
    var ended, shown := EventsTrack(ses, FRESH.sink, i, NO_EPISODE, [], "", events);
    var (s, outs) := OnEvents(ses, FRESH.sink, events).value;
    var indexes := Ascending(s.blocks.Keys);
    if l.open.Some? {
      AscendingHolds(s.blocks.Keys, i);
    }
    FlushAllShows(ses, s, i, l, ended, shown, indexes);
    var more := FlushBlocks(ses, s, indexes).value.1;
    ShownConcat(outs, more, i);
    assert [] + [] + ShownText(outs, i) == ShownText(outs, i);
    AssocText([], ShownText(outs, i), ShownText(more, i));
  }

  lemma {:induction false} RunFails(ses: Session, events: seq<Event>) returns (i: nat)
    requires WellBehaved(ses) && Parsed(ses.codec, events) && AllEpisodesFit(ses.codec, events)
    requires RunEvents(ses, events).Err?
    ensures RunEvents(ses, events).error.DetokenizeFailed?
    ensures OneShots(ses, Episodes(ses.codec, i, events)) == None
  {
    hide OnEvents, FlushBlocks, WellBehaved, SpansFit, OneShots, LedgerAfter, Ascending, Shows, FlushBlock, FailingBlock;
    if OnEvents(ses, FRESH.sink, events).Err? {
      i := FailingBlock(ses, FRESH.sink, events);
      NothingTracked(ses, i);
      assert EpisodesFit(Episodes(ses.codec, i, events));
      EventsFail(ses, FRESH.sink, i, NO_EPISODE, [], "", events);
    } else {
      var s := OnEvents(ses, FRESH.sink, events).value.0;
      i := FlushAllFails(ses, s, Ascending(s.blocks.Keys));
      NothingTracked(ses, i);
      FitLedger(ses.codec, i, events);
      var l := LedgerAfter(ses.codec, NO_EPISODE, i, events);
      var ended, shown := EventsTrack(ses, FRESH.sink, i, NO_EPISODE, [], "", events);
      FlushShows(ses, s, i, l, ended, shown);
    }
  }

  /** Streaming refines the one-shot rewrite. Over every run of events, the stream fails exactly
      when the one-shot rewrite of some episode of some block fails, and then for that reason;
      otherwise the text shown for each block is its episodes, each rewritten in one piece. */
  lemma {:induction false} StreamRefinesOneShot(ses: Session, events: seq<Event>)
    requires WellBehaved(ses) && Parsed(ses.codec, events) && AllEpisodesFit(ses.codec, events)
    ensures RunEvents(ses, events).Ok? <==> forall i :: OneShots(ses, Episodes(ses.codec, i, events)).Some?
    ensures RunEvents(ses, events).Ok? ==>
              forall i :: OneShots(ses, Episodes(ses.codec, i, events)) == Some(ShownText(RunEvents(ses, events).value, i))
    ensures RunEvents(ses, events).Err? ==> RunEvents(ses, events).error.DetokenizeFailed?
  {
    hide RunEvents, WellBehaved, EpisodesFit, OneShots, Episodes, Parsed;
    if RunEvents(ses, events).Ok? {
      forall i ensures OneShots(ses, Episodes(ses.codec, i, events)) == Some(ShownText(RunEvents(ses, events).value, i)) {
        RunShows(ses, events, i);
      }
    } else {
      var i := RunFails(ses, events);
    }
  }

  /** All text of a block is out before its stop event, or any other event of the block, is passed
      on: what was shown when the event's own bytes go out is every episode so far, in full. */
  lemma {:induction false} TextBeforeBlockEvent(ses: Session, events: seq<Event>, e: Event, i: nat)
    requires WellBehaved(ses) && Parsed(ses.codec, events) && Classify(ses.codec, e.data).Ok?
    requires var a := Classify(ses.codec, e.data).value; a == Flush(i) || a == Close(i)
    requires OnEvents(ses, FRESH.sink, events).Ok? && OnEvent(ses, OnEvents(ses, FRESH.sink, events).value.0, e).Ok?
    requires EpisodesFit(Episodes(ses.codec, i, events))
    ensures var (s, before) := OnEvents(ses, FRESH.sink, events).value;
            var own := OnEvent(ses, s, e).value.1;
            && own != [] && own[|own| - 1] == Raw(e.raw)
            && OneShots(ses, Episodes(ses.codec, i, events)) == Some(ShownText(before + own[..|own| - 1], i))
  {
    hide OnEvents, WellBehaved, SpansFit, OneShots, LedgerAfter, FlushBlock, Shows, Classify;
    NothingTracked(ses, i);
    FitLedger(ses.codec, i, events);
    var l := LedgerAfter(ses.codec, NO_EPISODE, i, events);
    var ended, shown := EventsTrack(ses, FRESH.sink, i, NO_EPISODE, [], "", events);
    var (s, before) := OnEvents(ses, FRESH.sink, events).value;
    var flushed := FlushBlock(ses, s, i).value.1;
    FlushShows(ses, s, i, l, ended, shown);
    var own := OnEvent(ses, s, e).value.1;
    assert own[..|own| - 1] == flushed;
    ShownConcat(before, flushed, i);
    assert [] + [] + ShownText(before, i) == ShownText(before, i);
    AssocText(ended, Running(l, shown), ShownText(flushed, i));
  }

  // ---------- from bytes ----------

  /** The events of a byte stream, the unterminated last one included, and what stopped the framing. */
  function EventsOf(codec: Codec, bytes: seq<Byte>): (seq<Event>, Option<RewriteError>) {
    var (f, events, failed) := RewriterRuns.FrameLines(codec, NO_EVENT, CompleteLines(bytes));
    if failed.Some? then (events, failed)
    else
      var last := LastPart(bytes);
      var ending: Result<(Framing, Option<Event>), RewriteError> :=
        if last == [] then Ok((f, None)) else FrameLine(codec, f, last + [NEWLINE]);
      match ending
      case Err(e) => (events, Some(e))
      case Ok((g, done)) =>
        (events
         + (match done case None => [] case Some(e) => [e])
         + (if g.raw != [] || g.data != [] then [Event(g.raw, g.data, g.named)] else []),
         None)
  }

  lemma {:induction false} EventsConcat(ses: Session, s: Sink, a: seq<Event>, b: seq<Event>)
    ensures OnEvents(ses, s, a + b) ==
            match OnEvents(ses, s, a)
            case Err(e) => Err(e)
            case Ok((t, outs)) => Rewriter.After(outs, OnEvents(ses, t, b))
    decreases |a|
  {
    hide OnEvent;
    if a == [] {
      assert a + b == b;
      Rewriter.AfterNothing(OnEvents(ses, s, b));
    } else {
      assert (a + b)[0] == a[0] && (a + b)[1..] == a[1..] + b;
      var first := OnEvent(ses, s, a[0]);
      if first.Ok? {
        var (t, outs) := first.value;
        EventsConcat(ses, t, a[1..], b);
        var mid := OnEvents(ses, t, a[1..]);
        if mid.Ok? {
          Rewriter.AfterTwice(outs, mid.value.1, OnEvents(ses, mid.value.0, b));
        }
      }
    }
  }

  lemma {:induction false} OneEvent(ses: Session, s: Sink, e: Event)
    ensures OnEvents(ses, s, [e]) == OnEvent(ses, s, e)
  {
    hide OnEvent;
    assert [e][1..] == [];
    var r := OnEvent(ses, s, e);
    if r.Ok? {
      assert r.value.1 + [] == r.value.1;
    }
  }

  lemma {:induction false} NoEvents(ses: Session, s: Sink)
    ensures OnEvents(ses, s, []) == Ok((s, []))
  {
  }

  /** A stream that is framed to its end is its events, one after the other, and the final flush. */
  lemma {:induction false} RunIsItsEvents(ses: Session, chunks: seq<seq<Byte>>)
    requires Run(ses, chunks) != Err(Oversized)
    requires EventsOf(ses.codec, RewriterRuns.Flatten(chunks)).1 == None
    ensures Run(ses, chunks) == RunEvents(ses, EventsOf(ses.codec, RewriterRuns.Flatten(chunks)).0)
  {
    hide PushAll, RewriterRuns.ConsumeLines, CompleteLines, LastPart, RewriterRuns.FrameLines, OnEvents, OnEvent,
      FrameLine, FlushBlocks, Ascending;
    var bytes := RewriterRuns.Flatten(chunks);
    assert [] + bytes == bytes;
    RewriterRuns.PushesAreOnePass(ses, State([], FRESH), chunks);
    RewriterRuns.FramingThenEvents(ses, FRESH, CompleteLines(bytes));
    var (f, events, _) := RewriterRuns.FrameLines(ses.codec, NO_EVENT, CompleteLines(bytes));
    var last := LastPart(bytes);
    var ending: Result<(Framing, Option<Event>), RewriteError> :=
      if last == [] then Ok((f, None)) else FrameLine(ses.codec, f, last + [NEWLINE]);
    var (g, done) := ending.value;
    var two := match done case None => [] case Some(e) => [e];
    var three := if g.raw != [] || g.data != [] then [Event(g.raw, g.data, g.named)] else [];
    EventsConcat(ses, FRESH.sink, events + two, three);
    EventsConcat(ses, FRESH.sink, events, two);
    var r := OnEvents(ses, FRESH.sink, events);
    if r.Ok? {
      var (s, a) := r.value;
      NoEvents(ses, s);
      if done.Some? {
        OneEvent(ses, s, done.value);
      }
      var r2 := OnEvents(ses, s, two);
      if r2.Ok? {
        var (s2, b) := r2.value;
        NoEvents(ses, s2);
        OneEvent(ses, s2, Event(g.raw, g.data, g.named));
        var r3 := OnEvents(ses, s2, three);
        if r3.Ok? {
          var (s3, c) := r3.value;
          var r4 := FlushBlocks(ses, s3, Ascending(s3.blocks.Keys));
          if r4.Ok? {
            assert a + (b + c + r4.value.1) == a + b + c + r4.value.1;
          }
        }
      }
    }
  }

  /** The refinement for a byte stream, however it is cut into chunks. */
  lemma {:induction false} BytesRefineOneShot(ses: Session, chunks: seq<seq<Byte>>)
    requires WellBehaved(ses) && Run(ses, chunks) != Err(Oversized)
    requires var (events, failed) := EventsOf(ses.codec, RewriterRuns.Flatten(chunks));
             failed == None && Parsed(ses.codec, events) && AllEpisodesFit(ses.codec, events)
    ensures var events := EventsOf(ses.codec, RewriterRuns.Flatten(chunks)).0;
            && (Run(ses, chunks).Ok? <==> forall i :: OneShots(ses, Episodes(ses.codec, i, events)).Some?)
            && (Run(ses, chunks).Ok? ==>
                  forall i :: OneShots(ses, Episodes(ses.codec, i, events)) == Some(ShownText(Run(ses, chunks).value, i)))
  {
    hide Run, RunEvents, EventsOf, WellBehaved, Parsed, AllEpisodesFit, OneShots, Episodes;
    RunIsItsEvents(ses, chunks);
    StreamRefinesOneShot(ses, EventsOf(ses.codec, RewriterRuns.Flatten(chunks)).0);
  }
}
