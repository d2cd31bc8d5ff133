/** The bytes of a stream: framing loses none, what carries no block text passes through untouched,
    and a block is flushed before any other event of it goes out. */
module StreamFraming {
  import opened Text
  import opened Rewriter
  import opened RewriterRuns
  import opened StreamRefinement

  // ---------- framing keeps every byte ----------

  function Raws(events: seq<Event>): seq<Byte> {
    if events == [] then [] else events[0].raw + Raws(events[1..])
  }

  lemma {:induction false} RawsConcat(a: seq<Event>, b: seq<Event>)
    ensures Raws(a + b) == Raws(a) + Raws(b)
    decreases |a|
  {
    if a == [] {
      assert a + b == b;
    } else {
      assert (a + b)[0] == a[0] && (a + b)[1..] == a[1..] + b;
      RawsConcat(a[1..], b);
    }
  }

  /** An event as a list of at most one. */
  function AsList(e: Option<Event>): seq<Event> {
    match e case None => [] case Some(x) => [x]
  }

  lemma {:induction false} RawsOfOne(e: Option<Event>)
    ensures Raws(AsList(e)) == if e.Some? then e.value.raw else []
  {
    if e.Some? {
      assert [e.value][1..] == [];
    }
  }

  /** A line's bytes join the event being collected, and leave with it. */
  lemma {:induction false} LineKeepsBytes(codec: Codec, f: Framing, raw: seq<Byte>)
    requires FrameLine(codec, f, raw).Ok?
    ensures var (g, done) := FrameLine(codec, f, raw).value;
            Raws(AsList(done)) + g.raw == f.raw + raw
  {
    RawsOfOne(FrameLine(codec, f, raw).value.1);
  }

  lemma {:induction false} LinesKeepBytes(codec: Codec, f: Framing, lines: seq<seq<Byte>>)
    requires FrameLines(codec, f, lines).2 == None
    ensures var (g, events, _) := FrameLines(codec, f, lines);
            Raws(events) + g.raw == f.raw + Flatten(lines)
    decreases |lines|
  {
    hide FrameLine, Raws;
    if lines == [] {
      assert Raws([]) == [] by { RawsOfOne(None); }
      assert [] + f.raw == f.raw + [];
    } else {
      var (g, done) := FrameLine(codec, f, lines[0]).value;
      LineKeepsBytes(codec, f, lines[0]);
      LinesKeepBytes(codec, g, lines[1..]);
      var (h, events, _) := FrameLines(codec, g, lines[1..]);
      RawsConcat(AsList(done), events);
      Regroup(Raws(AsList(done)), Raws(events), h.raw, g.raw, f.raw, lines[0], Flatten(lines[1..]));
    }
  }

  lemma {:induction false} Regroup(a: seq<Byte>, b: seq<Byte>, c: seq<Byte>, d: seq<Byte>, e: seq<Byte>, x: seq<Byte>, y: seq<Byte>)
    requires b + c == d + y && a + d == e + x
    ensures a + b + c == e + (x + y)
  {
    assert a + b + c == a + (b + c);
    assert a + (d + y) == (a + d) + y;
  }

  /** Cutting a buffer into lines loses nothing. */
  lemma {:induction false} LinesAreTheBuffer(buf: seq<Byte>)
    ensures Flatten(CompleteLines(buf)) + LastPart(buf) == buf
    decreases |buf|
  {
    hide NewlineAt, CompleteLines, LastPart, Flatten;
    var i := NewlineAt(buf);
    FirstLine(buf);
    if i < |buf| {
      var line, rest := buf[..i + 1], buf[i + 1..];
      LinesAreTheBuffer(rest);
      FlattenCons(line, CompleteLines(rest));
      assert line + (Flatten(CompleteLines(rest)) + LastPart(rest)) == line + Flatten(CompleteLines(rest)) + LastPart(rest);
      assert buf == line + rest;
    } else {
      FlattenNothing();
      assert [] + buf == buf;
    }
  }

  lemma {:induction false} FlattenCons(line: seq<Byte>, rest: seq<seq<Byte>>)
    ensures Flatten([line] + rest) == line + Flatten(rest)
  {
    assert ([line] + rest)[1..] == rest;
  }

  lemma {:induction false} FlattenNothing()
    ensures Flatten([]) == []
  {
  }

  /** The events of a stream hold exactly its bytes, in order, with a newline added when the last
      line had none. */
  lemma {:induction false} EventsAreTheBytes(codec: Codec, bytes: seq<Byte>)
    requires EventsOf(codec, bytes).1 == None
    ensures Raws(EventsOf(codec, bytes).0) == if LastPart(bytes) == [] then bytes else bytes + [NEWLINE]
  {
    hide FrameLine, Raws, FrameLines, CompleteLines, LastPart;
    var (f, events, _) := FrameLines(codec, NO_EVENT, CompleteLines(bytes));
    LinesKeepBytes(codec, NO_EVENT, CompleteLines(bytes));
    LinesAreTheBuffer(bytes);
    var last, lines := LastPart(bytes), Flatten(CompleteLines(bytes));
    assert [] + lines == lines;
    var ended: (Framing, Option<Event>) := if last == [] then (f, None) else FrameLine(codec, f, last + [NEWLINE]).value;
    RawsOfOne(ended.1);
    if last != [] {
      LineKeepsBytes(codec, f, last + [NEWLINE]);
    }
    var unfinished := LastEventOf(ended.0);
    RawsOfUnfinished(ended.0);
    RawsConcat(events + AsList(ended.1), unfinished);
    RawsConcat(events, AsList(ended.1));
    assert EventsOf(codec, bytes).0 == events + AsList(ended.1) + unfinished;
    if last == [] {
      assert events + [] == events && lines + [] == lines;
    } else {
      RegroupEnd(Raws(events), f.raw, lines, last, Raws(AsList(ended.1)), ended.0.raw);
    }
  }

  lemma {:induction false} RegroupEnd(a: seq<Byte>, b: seq<Byte>, lines: seq<Byte>, last: seq<Byte>, c: seq<Byte>, d: seq<Byte>)
    requires a + b == lines && c + d == b + (last + [NEWLINE])
    ensures a + c + d == (lines + last) + [NEWLINE]
  {
    assert a + c + d == a + (c + d);
    assert a + (b + (last + [NEWLINE])) == (a + b) + last + [NEWLINE];
  }

  function LastEventOf(g: Framing): seq<Event> {
    if g.raw != [] || g.data != [] then [Event(g.raw, g.data, g.named)] else []
  }

  lemma {:induction false} RawsOfUnfinished(g: Framing)
    ensures Raws(LastEventOf(g)) == g.raw
  {
    RawsOfOne(Some(Event(g.raw, g.data, g.named)));
  }

  // ---------- what passes through a stream ----------

  lemma {:induction false} DeltasConcat(a: seq<Out>, b: seq<Out>)
    requires OnlyDeltas(a) && OnlyDeltas(b)
    ensures OnlyDeltas(a + b)
  {
  }

  lemma {:induction false} FinalFlushIsDeltas(ses: Session, s: Sink, indexes: seq<nat>)
    requires FlushBlocks(ses, s, indexes).Ok?
    ensures OnlyDeltas(FlushBlocks(ses, s, indexes).value.1)
    decreases |indexes|
  {
    hide FlushBlock;
    if indexes != [] {
      var (t, outs) := FlushBlock(ses, s, indexes[0]).value;
      FlushEmitsDeltas(ses, s, indexes[0]);
      FinalFlushIsDeltas(ses, t, indexes[1..]);
      DeltasConcat(outs, FlushBlocks(ses, t, indexes[1..]).value.1);
    }
  }

  /** A stream that is rewritten to its end was framed to its end. */
  lemma {:induction false} RunIsFramed(ses: Session, chunks: seq<seq<Byte>>)
    requires Run(ses, chunks).Ok?
    ensures EventsOf(ses.codec, Flatten(chunks)).1 == None
  {
    hide PushAll, ConsumeLines, CompleteLines, LastPart, FrameLines, OnEvents, OnEvent, FrameLine, FlushBlocks, Ascending;
    var bytes := Flatten(chunks);
    assert [] + bytes == bytes;
    PushesAreOnePass(ses, State([], FRESH), chunks);
    FramingThenEvents(ses, FRESH, CompleteLines(bytes));
  }

  /** Framing is preserved, from bytes to bytes: the events hold exactly the stream's bytes, and with
      the text deltas taken out of input and output the bytes that remain are the same, in order. */
  lemma {:induction false} StreamFramingIsPreserved(ses: Session, chunks: seq<seq<Byte>>)
    requires Run(ses, chunks).Ok?
    ensures var bytes := Flatten(chunks);
            var (events, failed) := EventsOf(ses.codec, bytes);
            && failed == None
            && Raws(events) == (if LastPart(bytes) == [] then bytes else bytes + [NEWLINE])
            && RawBytes(Run(ses, chunks).value) == Untouched(ses.codec, events)
  {
    hide Run, EventsOf, OnEvents, FlushBlocks, Ascending, LastPart, Untouched;
    RunIsFramed(ses, chunks);
    EventsAreTheBytes(ses.codec, Flatten(chunks));
    RunIsItsEvents(ses, chunks);
    var events := EventsOf(ses.codec, Flatten(chunks)).0;
    FramingIsPreserved(ses, FRESH.sink, events);
    var (s, outs) := OnEvents(ses, FRESH.sink, events).value;
    FinalFlushIsDeltas(ses, s, Ascending(s.blocks.Keys));
    var more := FlushBlocks(ses, s, Ascending(s.blocks.Keys)).value.1;
    DeltasHaveNoRawBytes(more);
    RawBytesConcat(outs, more);
  }

  // ---------- a block is flushed before its other events ----------

  predicate IsBlockEvent(codec: Codec, e: Event, i: nat) {
    var a := Classify(codec, e.data);
    a == Ok(Flush(i)) || a == Ok(Close(i))
  }

  /** What a block still has to show, and as what: the transform of what it holds. */
  function Owed(ses: Session, s: Sink, i: nat): Shown {
    if i !in s.blocks || s.blocks[i].pending == "" then []
    else
      match ses.Transform(s.blocks[i].kind, s.blocks[i].pending)
      case Err(_) => []
      case Ok(text) => Mark(s.blocks[i].kind, text)
  }

  predicate NothingOwed(s: Sink, i: nat) { i in s.blocks ==> s.blocks[i].pending == "" }

  /** The outputs of an event of a block: all that the block still owes, as deltas of it, then the
      event's own bytes; and nothing is owed any more. */
  predicate FlushedFirst(ses: Session, s: Sink, e: Event, i: nat, t: Sink, own: seq<Out>) {
    && own != [] && own[|own| - 1] == Raw(e.raw)
    && (forall j | 0 <= j < |own| - 1 :: own[j].Delta? && own[j].index == i)
    && ShownText(own[..|own| - 1], i) == Owed(ses, s, i)
    && NothingOwed(t, i)
  }

  /** Whatever the keywords: the block is flushed first. */
  lemma {:induction false} BlockEventFlushesFirst(ses: Session, s: Sink, e: Event, i: nat)
    requires IsBlockEvent(ses.codec, e, i) && OnEvent(ses, s, e).Ok?
    ensures FlushedFirst(ses, s, e, i, OnEvent(ses, s, e).value.0, OnEvent(ses, s, e).value.1)
    ensures Classify(ses.codec, e.data) == Ok(Close(i)) ==> i !in OnEvent(ses, s, e).value.0.blocks
  {
    hide StreamingCut.Transform, Classify;
    var flushed := FlushBlock(ses, s, i).value.1;
    var own := OnEvent(ses, s, e).value.1;
    assert own == flushed + [Raw(e.raw)] && own[..|own| - 1] == flushed;
    FlushShowsOwed(ses, s, i);
  }

  lemma {:induction false} FlushShowsOwed(ses: Session, s: Sink, i: nat)
    requires FlushBlock(ses, s, i).Ok?
    ensures ShownText(FlushBlock(ses, s, i).value.1, i) == Owed(ses, s, i)
    ensures forall o | o in FlushBlock(ses, s, i).value.1 :: o.Delta? && o.index == i
  {
    hide StreamingCut.Transform;
    var outs := FlushBlock(ses, s, i).value.1;
    if outs != [] {
      assert outs[1..] == [];
      assert Mark(outs[0].kind, outs[0].text) + [] == Mark(outs[0].kind, outs[0].text);
    }
  }

  lemma {:induction false} EventsAt(ses: Session, s: Sink, events: seq<Event>, k: nat) returns (before: seq<Out>, own: seq<Out>, later: seq<Out>)
    requires k < |events| && OnEvents(ses, s, events).Ok?
    ensures OnEvents(ses, s, events[..k]).Ok? && OnEvent(ses, OnEvents(ses, s, events[..k]).value.0, events[k]).Ok?
    ensures before == OnEvents(ses, s, events[..k]).value.1
    ensures own == OnEvent(ses, OnEvents(ses, s, events[..k]).value.0, events[k]).value.1
    ensures OnEvents(ses, s, events).value.1 == before + own + later
  {
    hide OnEvents, OnEvent;
    assert events == events[..k] + ([events[k]] + events[k + 1..]);
    EventsConcat(ses, s, events[..k], [events[k]] + events[k + 1..]);
    var t := OnEvents(ses, s, events[..k]).value.0;
    EventsConcat(ses, t, [events[k]], events[k + 1..]);
    OneEvent(ses, t, events[k]);
    before := OnEvents(ses, s, events[..k]).value.1;
    own := OnEvent(ses, t, events[k]).value.1;
    later := OnEvents(ses, OnEvent(ses, t, events[k]).value.0, events[k + 1..]).value.1;
    assert before + (own + later) == before + own + later;
  }

  /** In a stream of bytes: the output splits at every event of a block into what earlier events gave,
      the block's flush with the event's own bytes last, and the rest; after it the block owes nothing. */
  lemma {:induction false} StreamFlushesFirst(ses: Session, chunks: seq<seq<Byte>>, k: nat, i: nat)
    returns (before: seq<Out>, own: seq<Out>, later: seq<Out>)
    requires Run(ses, chunks).Ok?
    requires var events := EventsOf(ses.codec, Flatten(chunks)).0;
             k < |events| && IsBlockEvent(ses.codec, events[k], i)
    ensures Run(ses, chunks).value == before + own + later
    ensures var events := EventsOf(ses.codec, Flatten(chunks)).0;
            var r := OnEvents(ses, FRESH.sink, events[..k]);
            && r.Ok? && before == r.value.1 && OnEvent(ses, r.value.0, events[k]).Ok?
            && own == OnEvent(ses, r.value.0, events[k]).value.1
            && FlushedFirst(ses, r.value.0, events[k], i, OnEvent(ses, r.value.0, events[k]).value.0, own)
  {
    hide Run, EventsOf, OnEvents, OnEvent, FlushBlocks, Ascending, FlushedFirst, IsBlockEvent;
    RunIsFramed(ses, chunks);
    RunIsItsEvents(ses, chunks);
    var events := EventsOf(ses.codec, Flatten(chunks)).0;
    before, own, later := EventsAt(ses, FRESH.sink, events, k);
    BlockEventFlushesFirst(ses, OnEvents(ses, FRESH.sink, events[..k]).value.0, events[k], i);
    var (s, outs) := OnEvents(ses, FRESH.sink, events).value;
    var more := FlushBlocks(ses, s, Ascending(s.blocks.Keys)).value.1;
    assert before + own + later + more == before + own + (later + more);
    later := later + more;
  }

  /** And when the keywords are well-behaved, what has been shown of the block by then is every episode
      before the event, each rewritten in one piece. */
  lemma {:induction false} StreamShowsBeforeBlockEvent(ses: Session, chunks: seq<seq<Byte>>, k: nat, i: nat)
    returns (before: seq<Out>, own: seq<Out>, later: seq<Out>)
    requires WellBehaved(ses) && Run(ses, chunks).Ok?
    requires var events := EventsOf(ses.codec, Flatten(chunks)).0;
             && k < |events| && IsBlockEvent(ses.codec, events[k], i) && Parsed(ses.codec, events[..k])
             && EpisodesFit(Episodes(ses.codec, i, events[..k]))
    ensures Run(ses, chunks).value == before + own + later
    ensures var events := EventsOf(ses.codec, Flatten(chunks)).0;
            && own != [] && own[|own| - 1] == Raw(events[k].raw)
            && OneShots(ses, Episodes(ses.codec, i, events[..k])) == Some(ShownText(before + own[..|own| - 1], i))
  {
    hide Run, EventsOf, OnEvents, OnEvent, WellBehaved, Parsed, EpisodesFit, Episodes, OneShots, ShownText, Owed, Classify;
    before, own, later := StreamFlushesFirst(ses, chunks, k, i);
    var events := EventsOf(ses.codec, Flatten(chunks)).0;
    TextBeforeBlockEvent(ses, events[..k], events[k], i);
  }
}
