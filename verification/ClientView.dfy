/** What a client reads: the rewritten stream, framed and parsed again, holds the text of every block
    that the rewriter meant to show. */
module ClientView {
  import opened Text
  import opened Rewriter
  import opened RewriterRuns
  import opened StreamRefinement
  import opened StreamFraming

  /** A printed frame is one line, and reads back as what was printed. */
  predicate ReadsBack(codec: Codec, index: nat, kind: Kind, text: string, extras: Extras) {
    var frame := codec.printFrame(index, kind, text, extras);
    && NEWLINE !in frame && RETURN !in frame
    && codec.utf8(frame).Some? && codec.utf8(frame).value != "[DONE]"
    && codec.parse(codec.utf8(frame).value) == Some(TextDelta(index, kind, Some(text), extras))
  }

  ghost predicate Faithful(codec: Codec) {
    forall index, kind, text, extras :: ReadsBack(codec, index, kind, text, extras)
  }

  /** The bytes are one whole event. */
  predicate FramesTo(codec: Codec, bytes: seq<Byte>, e: Event) {
    LastPart(bytes) == [] && FrameLines(codec, NO_EVENT, CompleteLines(bytes)) == (NO_EVENT, [e], None)
  }

  /** An event says what an output says. */
  predicate Says(codec: Codec, o: Out, e: Event) {
    match o
    case Raw(_) => !IsText(codec, e)
    case Delta(index, kind, text, extras, named) => Classify(codec, e.data) == Ok(Text(index, kind, text, extras)) && e.named == named
  }

  predicate Reads(codec: Codec, o: Out, e: Event) { FramesTo(codec, WireOne(codec, o), e) && Says(codec, o, e) }

  // ---------- lines ----------

  lemma {:induction false} LineFirst(x: seq<Byte>, rest: seq<Byte>)
    requires NEWLINE !in x
    ensures CompleteLines(x + [NEWLINE] + rest) == [x + [NEWLINE]] + CompleteLines(rest)
    ensures LastPart(x + [NEWLINE] + rest) == LastPart(rest)
  {
    hide CompleteLines, LastPart;
    var buf := x + [NEWLINE] + rest;
    NewlineIsFirst(buf, |x|);
    FirstLine(buf);
    assert buf[..|x| + 1] == x + [NEWLINE] && buf[|x| + 1..] == rest;
  }

  lemma {:induction false} NoLine()
    ensures CompleteLines([]) == [] && LastPart([]) == []
  {
  }

  /** A line with its newline. */
  predicate IsLine(l: seq<Byte>) { l != [] && l[|l| - 1] == NEWLINE && NEWLINE !in l[..|l| - 1] }

  lemma {:induction false} CompleteLinesAreLines(buf: seq<Byte>)
    ensures forall l | l in CompleteLines(buf) :: IsLine(l)
    decreases |buf|
  {
    hide NewlineAt, CompleteLines, LastPart;
    FirstLine(buf);
    var i := NewlineAt(buf);
    if i < |buf| {
      assert buf[..i + 1][..i] == buf[..i];
      CompleteLinesAreLines(buf[i + 1..]);
    }
  }

  lemma {:induction false} LinesAgain(lines: seq<seq<Byte>>)
    requires forall l | l in lines :: IsLine(l)
    ensures CompleteLines(Flatten(lines)) == lines && LastPart(Flatten(lines)) == []
    decreases |lines|
  {
    hide CompleteLines, LastPart;
    if lines == [] {
      NoLine();
    } else {
      var l := lines[0];
      assert l in lines && forall x | x in lines[1..] :: x in lines;
      LinesAgain(lines[1..]);
      LineFirst(l[..|l| - 1], Flatten(lines[1..]));
      assert l == l[..|l| - 1] + [NEWLINE];
    }
  }

  // ---------- events read back from their own bytes ----------

  lemma {:induction false} FrameHead(codec: Codec, f: Framing, line: seq<Byte>, rest: seq<seq<Byte>>)
    ensures FrameLine(codec, f, line).Err? ==> FrameLines(codec, f, [line] + rest).2.Some?
    ensures FrameLine(codec, f, line).Ok? ==>
              var (g, done) := FrameLine(codec, f, line).value;
              var (h, events, failed) := FrameLines(codec, g, rest);
              FrameLines(codec, f, [line] + rest) == (h, AsList(done) + events, failed)
  {
    hide FrameLine;
    assert ([line] + rest)[1..] == rest;
  }

  lemma {:induction false} FrameConcat(codec: Codec, f: Framing, a: seq<seq<Byte>>, b: seq<seq<Byte>>)
    requires FrameLines(codec, f, a).2 == None
    ensures var (g, events, _) := FrameLines(codec, f, a);
            var (h, more, failed) := FrameLines(codec, g, b);
            FrameLines(codec, f, a + b) == (h, events + more, failed)
    decreases |a|
  {
    hide FrameLine, FrameLines;
    if a == [] {
      assert a + b == b;
      NoFrames(codec, f);
      assert [] + FrameLines(codec, f, b).1 == FrameLines(codec, f, b).1;
    } else {
      var line, rest := a[0], a[1..];
      assert a == [line] + rest && a + b == [line] + (rest + b);
      FrameHead(codec, f, line, rest);
      FrameHead(codec, f, line, rest + b);
      var (g, done) := FrameLine(codec, f, line).value;
      FrameConcat(codec, g, rest, b);
      var (mid, events, _) := FrameLines(codec, g, rest);
      ConcatEvents(AsList(done), events, FrameLines(codec, mid, b).1);
    }
  }

  lemma {:induction false} ConcatEvents(a: seq<Event>, b: seq<Event>, c: seq<Event>)
    ensures a + (b + c) == (a + b) + c
  {
  }

  lemma {:induction false} FrameOne(codec: Codec, f: Framing, line: seq<Byte>)
    ensures FrameLine(codec, f, line).Ok? ==>
              var (g, done) := FrameLine(codec, f, line).value;
              FrameLines(codec, f, [line]) == (g, AsList(done), None)
  {
    hide FrameLine;
    assert [line][1..] == [];
    if FrameLine(codec, f, line).Ok? {
      var done := FrameLine(codec, f, line).value.1;
      assert AsList(done) + [] == AsList(done);
    }
  }

  /** The event being collected is what its own lines say. */
  ghost predicate Collected(codec: Codec, f: Framing, lines: seq<seq<Byte>>) {
    && (forall l | l in lines :: IsLine(l))
    && FrameLines(codec, NO_EVENT, lines) == (f, [], None) && Flatten(lines) == f.raw
  }

  lemma {:induction false} FlattenSnoc(lines: seq<seq<Byte>>, l: seq<Byte>)
    ensures Flatten(lines + [l]) == Flatten(lines) + l
  {
    if lines == [] {
      assert lines + [l] == [l] && [l][1..] == [];
      assert l + [] == l && [] + l == l;
    } else {
      assert (lines + [l])[0] == lines[0] && (lines + [l])[1..] == lines[1..] + [l];
      FlattenSnoc(lines[1..], l);
      assert lines[0] + (Flatten(lines[1..]) + l) == (lines[0] + Flatten(lines[1..])) + l;
    }
  }

  /** Every event that is completed reads back from its own bytes. */
  lemma {:induction false} EventsReadBack(codec: Codec, f: Framing, begun: seq<seq<Byte>>, lines: seq<seq<Byte>>)
    requires Collected(codec, f, begun) && (forall l | l in lines :: IsLine(l)) && FrameLines(codec, f, lines).2 == None
    ensures forall e | e in FrameLines(codec, f, lines).1 :: FramesTo(codec, e.raw, e)
    decreases |lines|
  {
    hide FrameLine, IsLine, FramesTo;
    if lines != [] {
      var l := lines[0];
      assert l in lines && forall x | x in lines[1..] :: x in lines;
      var (g, done) := FrameLine(codec, f, l).value;
      var all := begun + [l];
      assert forall x | x in all :: IsLine(x);
      FlattenSnoc(begun, l);
      FrameConcat(codec, NO_EVENT, begun, [l]);
      FrameOne(codec, f, l);
      LineEnds(codec, f, l);
      if done.None? {
        assert [] + AsList(done) == [];
        EventsReadBack(codec, g, all, lines[1..]);
      } else {
        assert [] + AsList(done) == [done.value];
        WholeEvent(codec, all, done.value);
        NothingCollected(codec);
        EventsReadBack(codec, g, [], lines[1..]);
      }
    }
  }

  lemma {:induction false} LineEnds(codec: Codec, f: Framing, raw: seq<Byte>)
    requires FrameLine(codec, f, raw).Ok?
    ensures var (g, done) := FrameLine(codec, f, raw).value;
            && (done.None? ==> g.raw == f.raw + raw)
            && (done.Some? ==> g == NO_EVENT && done.value.raw == f.raw + raw)
  {
  }

  lemma {:induction false} WholeEvent(codec: Codec, lines: seq<seq<Byte>>, e: Event)
    requires (forall l | l in lines :: IsLine(l)) && FrameLines(codec, NO_EVENT, lines) == (NO_EVENT, [e], None)
    requires e.raw == Flatten(lines)
    ensures FramesTo(codec, e.raw, e)
  {
    hide IsLine, CompleteLines, LastPart, FrameLines;
    LinesAgain(lines);
  }

  lemma {:induction false} NothingCollected(codec: Codec)
    ensures Collected(codec, NO_EVENT, [])
  {
  }

  // ---------- a synthesized delta reads back ----------

  lemma {:induction false} DataLine(codec: Codec, f: Framing, frame: seq<Byte>)
    requires NEWLINE !in frame && RETURN !in frame && codec.utf8(frame).Some?
    ensures var line := Ascii("data: ") + frame + [NEWLINE];
            FrameLine(codec, f, line)
            == Ok((Framing(f.raw + line, f.data + [codec.utf8(frame).value], f.named), None))
  {
    var line := Ascii("data: ") + frame + [NEWLINE];
    var bare := Ascii("data: ") + frame;
    DataPrefix();
    assert line[..|line| - 1] == bare;
    assert bare[|bare| - 1] != RETURN by {
      if frame != [] {
        assert bare[|bare| - 1] == frame[|frame| - 1];
      } else {
        assert bare == Ascii("data: ");
      }
    }
    assert StripEnd(line) == bare;
    assert bare == Ascii("data:") + ([SPACE] + frame);
    assert bare[|Ascii("data:")|..] == [SPACE] + frame && ([SPACE] + frame)[1..] == frame;
  }

  lemma {:induction false} DataPrefix()
    ensures Ascii("data: ") == Ascii("data:") + [SPACE] && Ascii("data: ")[5] == SPACE && |Ascii("data: ")| == 6
    ensures NEWLINE !in Ascii("data: ")
  {
  }

  lemma {:induction false} NameLine(codec: Codec, f: Framing)
    ensures var line := Ascii("event: content_block_delta") + [NEWLINE];
            FrameLine(codec, f, line) == Ok((Framing(f.raw + line, f.data, true), None))
  {
    var bare := Ascii("event: content_block_delta");
    var line := bare + [NEWLINE];
    NamePrefix();
    assert line[..|line| - 1] == bare;
    assert StripEnd(line) == bare;
  }

  lemma {:induction false} NamePrefix()
    ensures var bare := Ascii("event: content_block_delta");
            && Ascii("event:") <= bare && !(Ascii("data:") <= bare) && bare != [] && bare[|bare| - 1] != RETURN
            && NEWLINE !in bare
  {
    var name := "event: content_block_delta";
    NameChars();
    assert name[..6] == "event:";
    AsciiPrefix(name, 6);
    assert Ascii(name)[0] == 101 && Ascii("data:")[0] == 100;
  }

  lemma {:induction false} AsciiPrefix(s: string, n: nat)
    requires n <= |s|
    ensures Ascii(s[..n]) == Ascii(s)[..n]
  {
  }

  /** The synthesized event line is small letters, blanks and punctuation. */
  lemma {:induction false} NameChars()
    ensures var name := "event: content_block_delta"; forall i | 0 <= i < |name| :: 32 <= name[i] as int < 128
  {
  }

  lemma {:induction false} BlankLine(codec: Codec, f: Framing)
    ensures FrameLine(codec, f, [NEWLINE]) == Ok((NO_EVENT, Some(Event(f.raw + [NEWLINE], f.data, f.named))))
  {
    assert StripEnd([NEWLINE]) == [];
  }

  lemma {:induction false} DeltaLines(named: bool, frame: seq<Byte>)
    requires NEWLINE !in frame
    ensures var name, data := Ascii("event: content_block_delta") + [NEWLINE], Ascii("data: ") + frame + [NEWLINE];
            var bytes := (if named then Ascii("event: content_block_delta\n") else []) + Ascii("data: ") + frame + Ascii("\n\n");
            && CompleteLines(bytes) == (if named then [name] else []) + [data, [NEWLINE]]
            && LastPart(bytes) == []
  {
    hide CompleteLines, LastPart;
    var head, data := Ascii("event: content_block_delta"), Ascii("data: ") + frame;
    NamePrefix();
    DataPrefix();
    assert Ascii("\n\n") == [NEWLINE] + [NEWLINE] && Ascii("event: content_block_delta\n") == head + [NEWLINE];
    NoLine();
    LineFirst([], []);
    assert [] + [NEWLINE] + [] == [NEWLINE] && [] + [NEWLINE] == [NEWLINE];
    LineFirst(data, [NEWLINE]);
    var rest := data + [NEWLINE] + [NEWLINE];
    assert [] + Ascii("data: ") + frame + Ascii("\n\n") == rest;
    assert [data + [NEWLINE]] + ([[NEWLINE]] + []) == [data + [NEWLINE], [NEWLINE]];
    if named {
      LineFirst(head, rest);
      assert Ascii("event: content_block_delta\n") + Ascii("data: ") + frame + Ascii("\n\n") == head + [NEWLINE] + rest;
    } else {
      assert [] + [data + [NEWLINE], [NEWLINE]] == [data + [NEWLINE], [NEWLINE]];
    }
  }

  /** A synthesized delta is one whole event, which says exactly that delta and is named if it should be. */
  lemma {:induction false} DeltaReads(codec: Codec, index: nat, kind: Kind, text: string, extras: Extras, named: bool)
    returns (e: Event)
    requires ReadsBack(codec, index, kind, text, extras)
    ensures Reads(codec, Delta(index, kind, text, extras, named), e)
  {
    hide CompleteLines, LastPart, FrameLine, Ascii, FrameLines;
    var frame := codec.printFrame(index, kind, text, extras);
    var s := codec.utf8(frame).value;
    var name, data := Ascii("event: content_block_delta") + [NEWLINE], Ascii("data: ") + frame + [NEWLINE];
    DeltaLines(named, frame);
    var f := if named then Framing([] + name, [], true) else NO_EVENT;
    var g := Framing(f.raw + data, f.data + [s], f.named);
    e := Event(g.raw + [NEWLINE], g.data, g.named);
    NameLine(codec, NO_EVENT);
    DataLine(codec, f, frame);
    BlankLine(codec, g);
    FrameOne(codec, NO_EVENT, name);
    FrameOne(codec, f, data);
    FrameOne(codec, g, [NEWLINE]);
    FrameConcat(codec, f, [data], [[NEWLINE]]);
    assert [data] + [[NEWLINE]] == [data, [NEWLINE]] && [] + [e] == [e];
    NoFrames(codec, NO_EVENT);
    FrameConcat(codec, NO_EVENT, if named then [name] else [], [data, [NEWLINE]]);
    assert [] + [s] == [s];
  }

  lemma {:induction false} NoFrames(codec: Codec, f: Framing)
    ensures FrameLines(codec, f, []) == (f, [], None)
  {
  }

  // ---------- a whole output reads back ----------

  /** The text of a block in some events, each as its kind. */
  function TextOf(codec: Codec, events: seq<Event>, i: nat): Shown {
    if events == [] then []
    else
      (match Classify(codec, events[0].data)
       case Ok(Text(index, kind, payload, _)) => if index == i then Mark(kind, payload) else []
       case _ => [])
      + TextOf(codec, events[1..], i)
  }

  /** Every output reads back as one event that says the same. */
  ghost predicate AllRead(codec: Codec, outs: seq<Out>) { forall o | o in outs :: exists e :: Reads(codec, o, e) }

  lemma {:induction false} WireReads(codec: Codec, outs: seq<Out>)
    returns (events: seq<Event>)
    requires AllRead(codec, outs)
    ensures LastPart(Wire(codec, outs)) == []
    ensures FrameLines(codec, NO_EVENT, CompleteLines(Wire(codec, outs))) == (NO_EVENT, events, None)
    ensures forall i :: TextOf(codec, events, i) == ShownText(outs, i)
    decreases |outs|
  {
    hide CompleteLines, LastPart, FrameLines, WireOne, Classify;
    if outs == [] {
      events := [];
      NoLine();
      NoFrames(codec, NO_EVENT);
    } else {
      assert outs[0] in outs && forall o | o in outs[1..] :: o in outs;
      var e :| Reads(codec, outs[0], e);
      var rest := WireReads(codec, outs[1..]);
      events := [e] + rest;
      var a, b := WireOne(codec, outs[0]), Wire(codec, outs[1..]);
      LinesOfConcat(a, b);
      assert [] + b == b;
      FrameConcat(codec, NO_EVENT, CompleteLines(a), CompleteLines(b));
      assert events[0] == e && events[1..] == rest;
      forall i ensures TextOf(codec, events, i) == ShownText(outs, i) {
        SaysItsText(codec, outs[0], e, i);
      }
    }
  }

  lemma {:induction false} SaysItsText(codec: Codec, o: Out, e: Event, i: nat)
    requires Says(codec, o, e)
    ensures (match Classify(codec, e.data)
             case Ok(Text(index, kind, payload, _)) => if index == i then Mark(kind, payload) else []
             case _ => [])
         == if o.Delta? && o.index == i then Mark(o.kind, o.text) else []
  {
    hide Classify;
  }

  lemma {:induction false} AllReadConcat(codec: Codec, a: seq<Out>, b: seq<Out>)
    requires AllRead(codec, a) && AllRead(codec, b)
    ensures AllRead(codec, a + b)
  {
    hide Reads;
  }

  lemma {:induction false} DeltasRead(codec: Codec, outs: seq<Out>)
    requires Faithful(codec) && OnlyDeltas(outs)
    ensures AllRead(codec, outs)
  {
    hide Reads, ReadsBack;
    forall o | o in outs ensures exists e :: Reads(codec, o, e) {
      assert ReadsBack(codec, o.index, o.kind, o.text, o.extras);
      var e := DeltaReads(codec, o.index, o.kind, o.text, o.extras, o.named);
    }
  }

  lemma {:induction false} RawReads(codec: Codec, e: Event)
    requires FramesTo(codec, e.raw, e) && !IsText(codec, e)
    ensures AllRead(codec, [Raw(e.raw)])
  {
    hide FramesTo, IsText;
    assert Reads(codec, Raw(e.raw), e);
  }

  lemma {:induction false} EventOutsRead(ses: Session, s: Sink, e: Event)
    requires Faithful(ses.codec) && FramesTo(ses.codec, e.raw, e) && OnEvent(ses, s, e).Ok?
    ensures AllRead(ses.codec, OnEvent(ses, s, e).value.1)
  {
    hide FlushBlock, RewriteDelta, Classify, AllRead, FramesTo, Faithful;
    match Classify(ses.codec, e.data).value
    case Pass =>
      RawReads(ses.codec, e);
    case Text(index, kind, payload, extras) =>
      TextEmitsDeltas(ses, s.(useEventNames := e.named), index, kind, payload, extras);
      DeltasRead(ses.codec, OnEvent(ses, s, e).value.1);
    case Flush(index) =>
      FlushedRead(ses, s, index, e);
    case Close(index) =>
      FlushedRead(ses, s, index, e);
  }

  lemma {:induction false} FlushedRead(ses: Session, s: Sink, index: nat, e: Event)
    requires Faithful(ses.codec) && FramesTo(ses.codec, e.raw, e) && !IsText(ses.codec, e) && FlushBlock(ses, s, index).Ok?
    ensures AllRead(ses.codec, FlushBlock(ses, s, index).value.1 + [Raw(e.raw)])
  {
    hide FlushBlock, AllRead, FramesTo, Faithful, IsText;
    FlushEmitsDeltas(ses, s, index);
    DeltasRead(ses.codec, FlushBlock(ses, s, index).value.1);
    RawReads(ses.codec, e);
    AllReadConcat(ses.codec, FlushBlock(ses, s, index).value.1, [Raw(e.raw)]);
  }

  lemma {:induction false} EventsOutsRead(ses: Session, s: Sink, events: seq<Event>)
    requires Faithful(ses.codec) && (forall e | e in events :: FramesTo(ses.codec, e.raw, e)) && OnEvents(ses, s, events).Ok?
    ensures AllRead(ses.codec, OnEvents(ses, s, events).value.1)
    decreases |events|
  {
    hide OnEvent, FramesTo, Faithful, Reads;
    if events != [] {
      assert events[0] in events && forall e | e in events[1..] :: e in events;
      var (t, outs) := OnEvent(ses, s, events[0]).value;
      EventOutsRead(ses, s, events[0]);
      EventsOutsRead(ses, t, events[1..]);
      AllReadConcat(ses.codec, outs, OnEvents(ses, t, events[1..]).value.1);
    }
  }

  /** The stream ends with a blank line. */
  predicate Ended(codec: Codec, bytes: seq<Byte>) {
    LastPart(bytes) == [] && FrameLines(codec, NO_EVENT, CompleteLines(bytes)).0 == NO_EVENT
  }

  lemma {:induction false} EndedEvents(codec: Codec, bytes: seq<Byte>)
    requires Ended(codec, bytes) && EventsOf(codec, bytes).1 == None
    ensures EventsOf(codec, bytes).0 == FrameLines(codec, NO_EVENT, CompleteLines(bytes)).1
    ensures FrameLines(codec, NO_EVENT, CompleteLines(bytes)).2 == None
  {
    hide FrameLines, CompleteLines, LastPart;
    var events := FrameLines(codec, NO_EVENT, CompleteLines(bytes)).1;
    assert events + [] + [] == events;
  }

  /** A client that frames and parses the rewritten bytes reads, for every block, the text the rewriter
      showed. */
  lemma {:induction false} ClientReadsShownText(ses: Session, chunks: seq<seq<Byte>>)
    requires Faithful(ses.codec) && Run(ses, chunks).Ok? && Ended(ses.codec, Flatten(chunks))
    ensures var outs := Run(ses, chunks).value;
            var (events, failed) := EventsOf(ses.codec, Wire(ses.codec, outs));
            failed == None && forall i :: TextOf(ses.codec, events, i) == ShownText(outs, i)
  {
    hide Run, OnEvents, FlushBlocks, Ascending, LastPart, CompleteLines, FrameLines, FramesTo, Faithful, Classify, WireOne, AllRead, EventsOf, Ended;
    var codec, bytes := ses.codec, Flatten(chunks);
    RunIsFramed(ses, chunks);
    RunIsItsEvents(ses, chunks);
    EndedEvents(codec, bytes);
    CompleteLinesAreLines(bytes);
    NothingCollected(codec);
    EventsReadBack(codec, NO_EVENT, [], CompleteLines(bytes));
    var events := EventsOf(codec, bytes).0;
    EventsOutsRead(ses, FRESH.sink, events);
    var (s, outs) := OnEvents(ses, FRESH.sink, events).value;
    var more := FlushBlocks(ses, s, Ascending(s.blocks.Keys)).value.1;
    FinalFlushIsDeltas(ses, s, Ascending(s.blocks.Keys));
    DeltasRead(codec, more);
    AllReadConcat(codec, outs, more);
    var read := WireReads(codec, outs + more);
    WireEnds(codec, Wire(codec, outs + more), read);
  }

  lemma {:induction false} WireEnds(codec: Codec, bytes: seq<Byte>, events: seq<Event>)
    requires LastPart(bytes) == [] && FrameLines(codec, NO_EVENT, CompleteLines(bytes)) == (NO_EVENT, events, None)
    ensures EventsOf(codec, bytes) == (events, None)
  {
    hide FrameLines, CompleteLines, LastPart;
    assert events + [] + [] == events;
  }

  /** End to end: with well-behaved keywords, what a client reads of a block in the rewritten bytes is
      every episode of the block, each rewritten in one piece. */
  lemma {:induction false} ClientReadsOneShot(ses: Session, chunks: seq<seq<Byte>>, i: nat)
    requires Faithful(ses.codec) && WellBehaved(ses) && Run(ses, chunks).Ok? && Ended(ses.codec, Flatten(chunks))
    requires var events := EventsOf(ses.codec, Flatten(chunks)).0;
             Parsed(ses.codec, events) && AllEpisodesFit(ses.codec, events)
    ensures var events := EventsOf(ses.codec, Flatten(chunks)).0;
            var read := EventsOf(ses.codec, Wire(ses.codec, Run(ses, chunks).value)).0;
            OneShots(ses, Episodes(ses.codec, i, events)) == Some(TextOf(ses.codec, read, i))
  {
    hide Run, EventsOf, WellBehaved, Parsed, AllEpisodesFit, OneShots, Episodes, TextOf, ShownText, Faithful, Ended, Wire;
    RunIsFramed(ses, chunks);
    ClientReadsShownText(ses, chunks);
    BytesRefineOneShot(ses, chunks);
  }
}
