/** Whole runs of the rewriter: how the stream is cut into chunks does not matter, what passes
    through is untouched, and what is held stays small. */
module RewriterRuns {
  import opened Text
  import opened StreamingCut
  import opened Rewriter

  // ---------- chunking ----------

  function Flatten(chunks: seq<seq<Byte>>): seq<Byte> {
    if chunks == [] then [] else chunks[0] + Flatten(chunks[1..])
  }

  /** Lines one after the other, without the size check. */
  function ConsumeLines(ses: Session, c: Core, lines: seq<seq<Byte>>): Result<(Core, seq<Out>), RewriteError>
    decreases |lines|
  {
    if lines == [] then Ok((c, []))
    else
      match ConsumeLine(ses, c, lines[0])
      case Err(e) => Err(e)
      case Ok((d, outs)) => After(outs, ConsumeLines(ses, d, lines[1..]))
  }

  lemma {:induction false} ConsumeConcat(ses: Session, c: Core, a: seq<seq<Byte>>, b: seq<seq<Byte>>)
    ensures ConsumeLines(ses, c, a + b) ==
            match ConsumeLines(ses, c, a)
            case Err(e) => Err(e)
            case Ok((d, outs)) => After(outs, ConsumeLines(ses, d, b))
    decreases |a|
  {
    hide ConsumeLine;
    if a == [] {
      assert a + b == b;
      AfterNothing(ConsumeLines(ses, c, b));
    } else {
      assert (a + b)[0] == a[0] && (a + b)[1..] == a[1..] + b;
      var first := ConsumeLine(ses, c, a[0]);
      if first.Ok? {
        var (d, outs) := first.value;
        ConsumeConcat(ses, d, a[1..], b);
        var mid := ConsumeLines(ses, d, a[1..]);
        if mid.Ok? {
          AfterTwice(outs, mid.value.1, ConsumeLines(ses, mid.value.0, b));
        }
      }
    }
  }

  lemma {:induction false} NewlineIsFirst(buf: seq<Byte>, i: nat)
    requires i < |buf| && buf[i] == NEWLINE && forall j | 0 <= j < i :: buf[j] != NEWLINE
    ensures NewlineAt(buf) == i
  {
    if i > 0 {
      NewlineIsFirst(buf[1..], i - 1);
    }
  }

  lemma {:induction false} NewlineOfConcat(a: seq<Byte>, b: seq<Byte>)
    ensures NewlineAt(a) < |a| ==> NewlineAt(a + b) == NewlineAt(a)
  {
    var all, i := a + b, NewlineAt(a);
    assert forall j | 0 <= j < |a| :: all[j] == a[j];
    if i < |a| {
      NewlineIsFirst(all, i);
    }
  }

  lemma {:induction false} FirstLine(buf: seq<Byte>)
    ensures NewlineAt(buf) < |buf| ==>
              && CompleteLines(buf) == [buf[..NewlineAt(buf) + 1]] + CompleteLines(buf[NewlineAt(buf) + 1..])
              && LastPart(buf) == LastPart(buf[NewlineAt(buf) + 1..])
    ensures NewlineAt(buf) == |buf| ==> CompleteLines(buf) == [] && LastPart(buf) == buf
  {
    hide NewlineAt;
  }

  /** Splitting into lines can be interrupted anywhere and resumed with the part left over. */
  lemma {:induction false} LinesOfConcat(a: seq<Byte>, b: seq<Byte>)
    ensures CompleteLines(a + b) == CompleteLines(a) + CompleteLines(LastPart(a) + b)
    ensures LastPart(a + b) == LastPart(LastPart(a) + b)
    decreases |a|
  {
    hide NewlineAt, CompleteLines, LastPart;
    var i := NewlineAt(a);
    FirstLine(a);
    if i == |a| {
      assert [] + CompleteLines(a + b) == CompleteLines(a + b);
    } else {
      NewlineOfConcat(a, b);
      FirstLine(a + b);
      assert (a + b)[..i + 1] == a[..i + 1] && (a + b)[i + 1..] == a[i + 1..] + b;
      LinesOfConcat(a[i + 1..], b);
    }
  }

  /** The size check only ever turns a run into the oversize error. */
  lemma {:induction false} CapOnlyRefuses(ses: Session, c: Core, lines: seq<seq<Byte>>)
    ensures ConsumeCapped(ses, c, lines) == Err(Oversized) || ConsumeCapped(ses, c, lines) == ConsumeLines(ses, c, lines)
    decreases |lines|
  {
    hide ConsumeLine;
    if lines != [] {
      var first := ConsumeLine(ses, c, lines[0]);
      if first.Ok? {
        CapOnlyRefuses(ses, first.value.0, lines[1..]);
      }
    }
  }

  /** A run that is not refused for its size is one pass over the lines of the whole stream. */
  lemma {:induction false} PushesAreOnePass(ses: Session, st: State, chunks: seq<seq<Byte>>)
    requires PushAll(ses, st, chunks) != Err(Oversized) && NewlineAt(st.lineBuf) == |st.lineBuf|
    ensures var buf := st.lineBuf + Flatten(chunks);
            PushAll(ses, st, chunks) ==
            match ConsumeLines(ses, st.core, CompleteLines(buf))
            case Err(e) => Err(e)
            case Ok((c, outs)) => Ok((State(LastPart(buf), c), outs))
    decreases |chunks|
  {
    hide ConsumeLine, ConsumeLines, ConsumeCapped, CompleteLines, LastPart, NewlineAt;
    var buf := st.lineBuf + Flatten(chunks);
    if chunks == [] {
      assert buf == st.lineBuf;
      NoLines(ses, st.core, buf);
    } else {
      var fst := st.lineBuf + chunks[0];
      var rest := Flatten(chunks[1..]);
      assert buf == fst + rest;
      LinesOfConcat(fst, rest);
      CapOnlyRefuses(ses, st.core, CompleteLines(fst));
      ConsumeConcat(ses, st.core, CompleteLines(fst), CompleteLines(LastPart(fst) + rest));
      var pushed := PushChunk(ses, st, chunks[0]);
      if pushed.Ok? {
        var (t, outs) := pushed.value;
        LastPartHasNoNewline(fst);
        PushesAreOnePass(ses, t, chunks[1..]);
      }
    }
  }

  lemma {:induction false} NoLines(ses: Session, c: Core, buf: seq<Byte>)
    requires NewlineAt(buf) == |buf|
    ensures CompleteLines(buf) == [] && LastPart(buf) == buf && ConsumeLines(ses, c, []) == Ok((c, []))
  {
  }

  lemma {:induction false} LastPartHasNoNewline(buf: seq<Byte>)
    ensures NewlineAt(LastPart(buf)) == |LastPart(buf)|
    decreases |buf|
  {
    hide NewlineAt;
    if NewlineAt(buf) != |buf| {
      LastPartHasNoNewline(buf[NewlineAt(buf) + 1..]);
    }
  }

  /** Chunking invariance: two ways of delivering the same bytes give the same output, or the same
      error, as long as neither run is refused for its size. */
  lemma {:induction false} ChunkingInvariance(ses: Session, one: seq<seq<Byte>>, two: seq<seq<Byte>>)
    requires Flatten(one) == Flatten(two)
    requires Run(ses, one) != Err(Oversized) && Run(ses, two) != Err(Oversized)
    ensures Run(ses, one) == Run(ses, two)
  {
    hide PushAll, Finish, ConsumeLines, CompleteLines, LastPart;
    var st := State([], FRESH);
    PushesAreOnePass(ses, st, one);
    PushesAreOnePass(ses, st, two);
  }

  // ---------- framing and rewriting apart ----------

  /** The events of a run of lines: those completed, the one begun, and what ended the framing. */
  function FrameLines(codec: Codec, f: Framing, lines: seq<seq<Byte>>): (Framing, seq<Event>, Option<RewriteError>)
    decreases |lines|
  {
    if lines == [] then (f, [], None)
    else
      match FrameLine(codec, f, lines[0])
      case Err(e) => (f, [], Some(e))
      case Ok((g, done)) =>
        var (h, events, failed) := FrameLines(codec, g, lines[1..]);
        (h, (match done case None => [] case Some(e) => [e]) + events, failed)
  }

  /** Consuming lines is framing them and then acting on the events, in order. */
  lemma {:induction false} FramingThenEvents(ses: Session, c: Core, lines: seq<seq<Byte>>)
    ensures var (f, events, failed) := FrameLines(ses.codec, c.framing, lines);
            ConsumeLines(ses, c, lines) ==
            match OnEvents(ses, c.sink, events)
            case Err(e) => Err(e)
            case Ok((s, outs)) => if failed.Some? then Err(failed.value) else Ok((Core(f, s), outs))
    decreases |lines|
  {
    hide OnEvent, FrameLine;
    if lines != [] {
      var first := FrameLine(ses.codec, c.framing, lines[0]);
      if first.Ok? {
        var (g, done) := first.value;
        var (_, events, _) := FrameLines(ses.codec, g, lines[1..]);
        match done {
          case None =>
            FramingThenEvents(ses, c.(framing := g), lines[1..]);
            AfterNothing(ConsumeLines(ses, c.(framing := g), lines[1..]));
            assert [] + events == events;
          case Some(e) =>
            var acted := OnEvent(ses, c.sink, e);
            assert ([e] + events)[0] == e && ([e] + events)[1..] == events;
            if acted.Ok? {
              FramingThenEvents(ses, Core(g, acted.value.0), lines[1..]);
            }
        }
      }
    }
  }

  // ---------- what passes through ----------

  predicate IsText(codec: Codec, e: Event) {
    Classify(codec, e.data).Ok? && Classify(codec, e.data).value.Text?
  }

  /** The bytes of the events that carry no block text. */
  function Untouched(codec: Codec, events: seq<Event>): seq<Byte> {
    if events == [] then []
    else (if IsText(codec, events[0]) then [] else events[0].raw) + Untouched(codec, events[1..])
  }

  /** The bytes sent on as received. */
  function RawBytes(outs: seq<Out>): seq<Byte> {
    if outs == [] then []
    else (match outs[0] case Raw(bytes) => bytes case Delta(_, _, _, _, _) => []) + RawBytes(outs[1..])
  }

  lemma {:induction false} RawBytesConcat(a: seq<Out>, b: seq<Out>)
    ensures RawBytes(a + b) == RawBytes(a) + RawBytes(b)
    decreases |a|
  {
    if a == [] {
      assert a + b == b;
    } else {
      assert (a + b)[0] == a[0] && (a + b)[1..] == a[1..] + b;
      RawBytesConcat(a[1..], b);
    }
  }

  predicate OnlyDeltas(outs: seq<Out>) { forall i | 0 <= i < |outs| :: outs[i].Delta? }

  lemma {:induction false} DeltasHaveNoRawBytes(outs: seq<Out>)
    requires OnlyDeltas(outs)
    ensures RawBytes(outs) == []
  {
    if outs != [] {
      DeltasHaveNoRawBytes(outs[1..]);
    }
  }

  lemma {:induction false} FlushEmitsDeltas(ses: Session, s: Sink, index: nat)
    requires Rewriter.FlushBlock(ses, s, index).Ok?
    ensures OnlyDeltas(Rewriter.FlushBlock(ses, s, index).value.1)
  {
    hide StreamingCut.Transform;
  }

  lemma {:induction false} TextEmitsDeltas(ses: Session, s: Sink, index: nat, kind: Kind, payload: string, extras: Extras)
    requires Rewriter.RewriteDelta(ses, s, index, kind, payload, extras).Ok?
    ensures OnlyDeltas(Rewriter.RewriteDelta(ses, s, index, kind, payload, extras).value.1)
  {
    hide StreamingCut.Transform, SafeLen, FlushBlock;
    if index in s.blocks && s.blocks[index].kind != kind {
      FlushEmitsDeltas(ses, s, index);
    }
  }

  lemma {:induction false} EventRawBytes(ses: Session, s: Sink, e: Event)
    requires OnEvent(ses, s, e).Ok?
    ensures RawBytes(OnEvent(ses, s, e).value.1) == if IsText(ses.codec, e) then [] else e.raw
  {
    hide FlushBlock, RewriteDelta, Classify;
    assert RawBytes([Raw(e.raw)]) == e.raw + RawBytes([]) == e.raw by {
      assert [Raw(e.raw)][1..] == [];
    }
    match Classify(ses.codec, e.data).value
    case Pass =>
    case Text(index, kind, payload, extras) =>
      TextEmitsDeltas(ses, s.(useEventNames := e.named), index, kind, payload, extras);
      DeltasHaveNoRawBytes(OnEvent(ses, s, e).value.1);
    case Flush(index) =>
      FlushThenRaw(ses, s, index, e.raw);
    case Close(index) =>
      FlushThenRaw(ses, s, index, e.raw);
  }

  lemma {:induction false} FlushThenRaw(ses: Session, s: Sink, index: nat, raw: seq<Byte>)
    requires FlushBlock(ses, s, index).Ok?
    ensures RawBytes(FlushBlock(ses, s, index).value.1 + [Raw(raw)]) == raw
  {
    hide FlushBlock;
    var outs := FlushBlock(ses, s, index).value.1;
    FlushEmitsDeltas(ses, s, index);
    DeltasHaveNoRawBytes(outs);
    RawBytesConcat(outs, [Raw(raw)]);
    assert [Raw(raw)][1..] == [];
  }

  /** Framing is preserved: with the text deltas taken out of input and output, the bytes that
      remain are the same, in the same order. */
  lemma {:induction false} FramingIsPreserved(ses: Session, s: Sink, events: seq<Event>)
    requires OnEvents(ses, s, events).Ok?
    ensures RawBytes(OnEvents(ses, s, events).value.1) == Untouched(ses.codec, events)
    decreases |events|
  {
    hide OnEvent, IsText;
    if events != [] {
      var (t, outs) := OnEvent(ses, s, events[0]).value;
      EventRawBytes(ses, s, events[0]);
      FramingIsPreserved(ses, t, events[1..]);
      RawBytesConcat(outs, OnEvents(ses, t, events[1..]).value.1);
    }
  }

  // ---------- what is held ----------

  /** Every held tail is irreducible and bounded. */
  ghost predicate HeldIsSmall(ses: Session, s: Sink) {
    forall i | i in s.blocks ::
      SafeLen(s.blocks[i].pending, ses.keywords) == 0 && |s.blocks[i].pending| <= MAX_TOKEN_SPAN_LEN
  }

  lemma {:induction false} NothingHeldIsSmall(ses: Session)
    ensures SafeLen("", ses.keywords) == 0
  {
  }

  lemma {:induction false} EventKeepsHeldSmall(ses: Session, s: Sink, e: Event)
    requires ses.Valid() && HeldIsSmall(ses, s) && OnEvent(ses, s, e).Ok?
    ensures HeldIsSmall(ses, OnEvent(ses, s, e).value.0)
  {
    hide StreamingCut.Transform, SafeLen, Classify, Emit;
    NothingHeldIsSmall(ses);
    var a := Classify(ses.codec, e.data).value;
    if a.Text? {
      var s' := s.(useEventNames := e.named);
      var begins := a.index !in s.blocks || s.blocks[a.index].kind != a.kind;
      var pending := (if begins then "" else s.blocks[a.index].pending) + a.payload;
      HeldIsIrreducible(pending, ses.keywords);
    }
  }

  /** In every reachable state each held tail is irreducible and at most the span cap long. */
  lemma {:induction false} HeldStaysSmall(ses: Session, s: Sink, events: seq<Event>)
    requires ses.Valid() && HeldIsSmall(ses, s) && OnEvents(ses, s, events).Ok?
    ensures HeldIsSmall(ses, OnEvents(ses, s, events).value.0)
    decreases |events|
  {
    hide OnEvent, HeldIsSmall;
    if events != [] {
      EventKeepsHeldSmall(ses, s, events[0]);
      HeldStaysSmall(ses, OnEvent(ses, s, events[0]).value.0, events[1..]);
    }
  }

  /** The same for the bytes of a stream, however they arrive. */
  lemma {:induction false} HeldStaysSmallInStream(ses: Session, chunks: seq<seq<Byte>>)
    requires ses.Valid() && PushAll(ses, State([], FRESH), chunks).Ok?
    ensures HeldIsSmall(ses, PushAll(ses, State([], FRESH), chunks).value.0.core.sink)
  {
    hide PushAll, ConsumeLines, CompleteLines, LastPart, FrameLines, OnEvents, HeldIsSmall;
    var st := State([], FRESH);
    PushesAreOnePass(ses, st, chunks);
    var lines := CompleteLines([] + Flatten(chunks));
    FramingThenEvents(ses, FRESH, lines);
    var (_, events, _) := FrameLines(ses.codec, NO_EVENT, lines);
    assert HeldIsSmall(ses, FRESH.sink) by { NothingIsHeldAtFirst(ses); }
    HeldStaysSmall(ses, FRESH.sink, events);
  }

  lemma {:induction false} NothingIsHeldAtFirst(ses: Session)
    ensures HeldIsSmall(ses, FRESH.sink)
  {
  }
}
