/** The rules of the wire, spelled out: what a line means, what passes through, what a synthesized
    delta carries, in which order blocks are flushed, and what is refused for its size. */
module WireFormat {
  import opened Text
  import opened StreamingCut
  import opened Rewriter
  import opened RewriterRuns
  import opened StreamRefinement

  // ---------- lines ----------

  /** A line of a stream, ended by LF or by CR LF. */
  function Ended(line: seq<Byte>, crlf: bool): seq<Byte> {
    line + if crlf then [RETURN, NEWLINE] else [NEWLINE]
  }

  predicate NoTerminator(line: seq<Byte>) { NEWLINE !in line && (line != [] ==> line[|line| - 1] != RETURN) }

  /** How a line ends makes no difference to what it says. */
  lemma {:induction false} EndingIsStripped(line: seq<Byte>, crlf: bool)
    requires NoTerminator(line)
    ensures StripEnd(Ended(line, crlf)) == line
  {
    var raw := Ended(line, crlf);
    if crlf {
      assert raw[..|raw| - 1] == line + [RETURN] && (line + [RETURN])[..|line|] == line;
    } else {
      assert raw[..|raw| - 1] == line;
    }
  }

  /** A blank line completes the event; whatever was collected is the event. */
  lemma {:induction false} BlankLineCompletes(codec: Codec, f: Framing, crlf: bool)
    ensures FrameLine(codec, f, Ended([], crlf)) == Ok((NO_EVENT, Some(Event(f.raw + Ended([], crlf), f.data, f.named))))
  {
    EndingIsStripped([], crlf);
  }

  lemma {:induction false} FieldIsStripped(field: seq<Byte>, space: bool, value: seq<Byte>)
    requires !space && value != [] ==> value[0] != SPACE
    ensures StripField(field + (if space then [SPACE] else []) + value, field) == Some(value)
  {
    var gap := if space then [SPACE] else [];
    var line := field + gap + value;
    assert line[|field|..] == gap + value;
    assert space ==> ([SPACE] + value)[1..] == value;
    assert [] + value == value;
  }

  lemma {:induction false} FieldNames(rest: seq<Byte>)
    ensures StripField(Ascii("event:") + rest, Ascii("data:")) == None
    ensures Ascii("data:") != [] && Ascii("event:") != []
  {
    assert (Ascii("event:") + rest)[0] == 101 && Ascii("data:")[0] == 100;
  }

  /** A data line adds its value, after at most one space, to the event's data. */
  lemma {:induction false} DataLineAdds(codec: Codec, f: Framing, space: bool, value: seq<Byte>, crlf: bool)
    requires NoTerminator(value) && (!space && value != [] ==> value[0] != SPACE)
    ensures var raw := Ended(Ascii("data:") + (if space then [SPACE] else []) + value, crlf);
            FrameLine(codec, f, raw) ==
            match codec.utf8(value)
            case None => Err(UnparseableEvent(NotUtf8))
            case Some(text) => Ok((Framing(f.raw + raw, f.data + [text], f.named), None))
  {
    var line := Ascii("data:") + (if space then [SPACE] else []) + value;
    DataName();
    FieldIsStripped(Ascii("data:"), space, value);
    assert NoTerminator(line);
    EndingIsStripped(line, crlf);
  }

  lemma {:induction false} DataName()
    ensures NoTerminator(Ascii("data:")) && Ascii("data:") == [100, 97, 116, 97, 58]
  {
    assert |Ascii("data:")| == 5;
  }

  lemma {:induction false} EventName()
    ensures NoTerminator(Ascii("event:")) && Ascii("event:") == [101, 118, 101, 110, 116, 58]
  {
    assert |Ascii("event:")| == 6;
  }

  /** An event line only marks the event as named. */
  lemma {:induction false} EventLineNames(codec: Codec, f: Framing, value: seq<Byte>, crlf: bool)
    requires NoTerminator(value)
    ensures var raw := Ended(Ascii("event:") + value, crlf);
            FrameLine(codec, f, raw) == Ok((Framing(f.raw + raw, f.data, true), None))
  {
    var line := Ascii("event:") + value;
    EventName();
    FieldNames(value);
    assert NoTerminator(line) && Ascii("event:") <= line;
    EndingIsStripped(line, crlf);
  }

  /** Any other line, a comment say, is only carried along. */
  lemma {:induction false} OtherLineIsCarried(codec: Codec, f: Framing, line: seq<Byte>, crlf: bool)
    requires NoTerminator(line) && line != [] && !(Ascii("data:") <= line) && !(Ascii("event:") <= line)
    ensures FrameLine(codec, f, Ended(line, crlf)) == Ok((f.(raw := f.raw + Ended(line, crlf)), None))
  {
    EndingIsStripped(line, crlf);
  }

  /** Data lines are joined by line feeds. */
  lemma {:induction false} DataIsJoined(a: seq<string>, b: seq<string>)
    requires a != [] && b != []
    ensures JoinLines(a + b) == JoinLines(a) + "\n" + JoinLines(b)
    ensures |a| == 1 ==> JoinLines(a) == a[0]
    decreases |a|
  {
    assert (a + b)[0] == a[0] && (a + b)[1..] == a[1..] + b;
    if |a| > 1 {
      DataIsJoined(a[1..], b);
    } else {
      assert a[1..] + b == b;
    }
  }

  // ---------- events ----------

  /** Events without data and the end marker pass through and change nothing. */
  lemma {:induction false} MarkersPassThrough(ses: Session, s: Sink, e: Event)
    requires e.data == [] || e.data == ["[DONE]"]
    ensures OnEvent(ses, s, e) == Ok((s, [Raw(e.raw)]))
  {
  }

  /** So do frames that are not about a block, byte for byte. */
  lemma {:induction false} OtherFramesPassThrough(ses: Session, s: Sink, e: Event)
    requires e.data != [] && JoinLines(e.data) != "[DONE]" && ses.codec.parse(JoinLines(e.data)) == Some(OtherFrame)
    ensures OnEvent(ses, s, e) == Ok((s, [Raw(e.raw)]))
  {
  }

  predicate ReadsAs(codec: Codec, data: seq<string>, frame: Frame) {
    data != [] && JoinLines(data) != "[DONE]" && codec.parse(JoinLines(data)) == Some(frame)
  }

  /** Which events are text of a block: those that read as a delta with a payload, and then exactly its
      block, kind, payload and extra fields count. */
  lemma {:induction false} TextEventsExactly(codec: Codec, data: seq<string>, index: nat, kind: Kind, payload: string, extras: Extras)
    ensures Classify(codec, data) == Ok(Text(index, kind, payload, extras))
       <==> ReadsAs(codec, data, TextDelta(index, kind, Some(payload), extras))
  {
  }

  /** Any other frame of a block first gives what the block still held, rewritten, and then its own bytes; a
      stop forgets the block, anything else leaves it empty, and other blocks stay as they are. */
  lemma {:induction false} BlockFrameFlushes(ses: Session, s: Sink, e: Event, index: nat, stop: bool)
    requires ReadsAs(ses.codec, e.data, if stop then BlockStop(index) else OtherDelta(index)) && OnEvent(ses, s, e).Ok?
    ensures var (t, outs) := OnEvent(ses, s, e).value;
            && outs != [] && outs[|outs| - 1] == Raw(e.raw) && t.useEventNames == s.useEventNames
            && (if index !in s.blocks || s.blocks[index].pending == "" then outs == [Raw(e.raw)]
                else
                  var b := s.blocks[index];
                  && AllDeltas(outs[..|outs| - 1], index, b.kind, b.extras, s.useEventNames)
                  && ses.Transform(b.kind, b.pending).Ok?
                  && ShownText(outs, index) == Mark(b.kind, ses.Transform(b.kind, b.pending).value))
            && t.blocks - {index} == s.blocks - {index}
            && (stop ==> index !in t.blocks)
            && (!stop && index in s.blocks ==> index in t.blocks && t.blocks[index] == s.blocks[index].(pending := ""))
  {
    hide StreamingCut.Transform, Mark;
    var flushed := FlushBlock(ses, s, index).value.1;
    assert (flushed + [Raw(e.raw)])[..|flushed|] == flushed;
    RawShowsNothing(e.raw, index);
    if index in s.blocks && s.blocks[index].pending != "" {
      var b := s.blocks[index];
      EmitShows(index, b.kind, ses.Transform(b.kind, b.pending).value, b.extras, s.useEventNames, e.raw);
    }
  }

  lemma {:induction false} RawShowsNothing(raw: seq<Byte>, index: nat)
    ensures ShownText([Raw(raw)], index) == []
  {
  }

  lemma {:induction false} EmitShows(index: nat, kind: Kind, text: string, extras: Extras, named: bool, raw: seq<Byte>)
    ensures ShownText(Emit(index, kind, text, extras, named) + [Raw(raw)], index) == Mark(kind, text)
  {
    var emitted := Emit(index, kind, text, extras, named);
    RawShowsNothing(raw, index);
    if text != "" {
      assert (emitted + [Raw(raw)])[1..] == [Raw(raw)];
      assert Mark(kind, text) + [] == Mark(kind, text);
    } else {
      assert emitted + [Raw(raw)] == [Raw(raw)];
    }
  }

  /** Data that cannot be read, and a delta without a text payload, stop the stream. */
  lemma {:induction false} UnreadableStops(ses: Session, s: Sink, e: Event)
    requires e.data != [] && JoinLines(e.data) != "[DONE]"
    ensures ses.codec.parse(JoinLines(e.data)) == None ==> OnEvent(ses, s, e) == Err(UnparseableEvent(NotJson))
    ensures forall index, kind, extras ::
              ses.codec.parse(JoinLines(e.data)) == Some(TextDelta(index, kind, None, extras)) ==>
                OnEvent(ses, s, e) == Err(UnparseableEvent(PayloadNotString))
  {
  }

  // ---------- what a synthesized delta carries ----------

  predicate IsDelta(o: Out, index: nat, kind: Kind, extras: Extras, named: bool) {
    o.Delta? && o.index == index && o.kind == kind && o.extras == extras && o.named == named
  }

  predicate AllDeltas(outs: seq<Out>, index: nat, kind: Kind, extras: Extras, named: bool) {
    forall o | o in outs :: IsDelta(o, index, kind, extras, named)
  }

  /** A flush gives deltas of the block, of the kind and with the extra fields it holds, named as the
      last text delta was. */
  lemma {:induction false} FlushCarries(ses: Session, s: Sink, index: nat)
    requires FlushBlock(ses, s, index).Ok?
    ensures var outs := FlushBlock(ses, s, index).value.1;
            if index in s.blocks then AllDeltas(outs, index, s.blocks[index].kind, s.blocks[index].extras, s.useEventNames)
            else outs == []
  {
    hide StreamingCut.Transform;
  }

  lemma {:induction false} GrowCarries(ses: Session, s: Sink, index: nat, kind: Kind, payload: string, extras: Extras)
    requires Grow(ses, s, index, kind, payload, extras).Ok?
    ensures var (t, outs) := Grow(ses, s, index, kind, payload, extras).value;
            && AllDeltas(outs, index, kind, extras, s.useEventNames)
            && index in t.blocks && t.blocks[index].kind == kind && t.blocks[index].extras == extras
            && t.useEventNames == s.useEventNames
  {
    hide StreamingCut.Transform, SafeLen;
  }

  /** A text event gives deltas of its own block, kind and extra fields, named exactly if it was; where it
      changes the kind, what the block still held comes first, as the kind and with the extra fields it
      was held with. The block goes on with the event's kind and fields. */
  lemma {:induction false} TextEventCarries(ses: Session, s: Sink, e: Event, index: nat, kind: Kind, payload: string, extras: Extras)
    returns (flushed: seq<Out>, grown: seq<Out>)
    requires ReadsAs(ses.codec, e.data, TextDelta(index, kind, Some(payload), extras)) && OnEvent(ses, s, e).Ok?
    ensures var (t, outs) := OnEvent(ses, s, e).value;
            && outs == flushed + grown && AllDeltas(grown, index, kind, extras, e.named)
            && (if index in s.blocks && s.blocks[index].kind != kind
                then AllDeltas(flushed, index, s.blocks[index].kind, s.blocks[index].extras, e.named)
                else flushed == [])
            && index in t.blocks && t.blocks[index].kind == kind && t.blocks[index].extras == extras
            && t.useEventNames == e.named
  {
    TextEventsExactly(ses.codec, e.data, index, kind, payload, extras);
    hide FlushBlock, Grow, Classify, AllDeltas;
    var s' := s.(useEventNames := e.named);
    if index in s.blocks && s.blocks[index].kind != kind {
      var t := CloseBlock(ses, s', index).value.0;
      flushed := CloseBlock(ses, s', index).value.1;
      FlushCarries(ses, s', index);
      FlushKeepsName(ses, s', index);
      grown := Grow(ses, t, index, kind, payload, extras).value.1;
      GrowCarries(ses, t, index, kind, payload, extras);
    } else {
      flushed := [];
      grown := Grow(ses, s', index, kind, payload, extras).value.1;
      GrowCarries(ses, s', index, kind, payload, extras);
      assert [] + grown == grown;
    }
  }

  lemma {:induction false} FlushKeepsName(ses: Session, s: Sink, index: nat)
    requires FlushBlock(ses, s, index).Ok?
    ensures FlushBlock(ses, s, index).value.0.useEventNames == s.useEventNames
  {
    hide StreamingCut.Transform, Emit;
  }

  // ---------- pieces of one kind ----------

  /** One more character at the end: it joins the last piece if that is of its kind. */
  function Extended(pieces: seq<(Kind, string)>, kind: Kind, c: char): seq<(Kind, string)> {
    var n := |pieces|;
    if n > 0 && pieces[n - 1].0 == kind then pieces[..n - 1] + [(kind, pieces[n - 1].1 + [c])] else pieces + [(kind, [c])]
  }

  /** What is shown, as pieces of text: neighbours of one kind joined. */
  function Pieces(shown: Shown): seq<(Kind, string)> {
    if shown == [] then []
    else Extended(Pieces(shown[..|shown| - 1]), shown[|shown| - 1].0, shown[|shown| - 1].1)
  }

  function Marks(pieces: seq<(Kind, string)>): Shown {
    if pieces == [] then []
    else Marks(pieces[..|pieces| - 1]) + Mark(pieces[|pieces| - 1].0, pieces[|pieces| - 1].1)
  }

  lemma {:induction false} ExtendedMarks(pieces: seq<(Kind, string)>, kind: Kind, c: char)
    ensures Marks(Extended(pieces, kind, c)) == Marks(pieces) + [(kind, c)]
  {
    var now, n := Extended(pieces, kind, c), |pieces|;
    assert Mark(kind, [c]) == [(kind, c)];
    if n > 0 && pieces[n - 1].0 == kind {
      assert now[..|now| - 1] == pieces[..n - 1];
      MarkConcat(kind, pieces[n - 1].1, [c]);
    } else {
      assert now[..|now| - 1] == pieces;
    }
  }

  predicate WholePieces(pieces: seq<(Kind, string)>) {
    && (forall i | 0 <= i < |pieces| :: pieces[i].1 != "")
    && (forall i | 0 <= i < |pieces| - 1 :: pieces[i].0 != pieces[i + 1].0)
  }

  lemma {:induction false} ExtendedAreWhole(pieces: seq<(Kind, string)>, kind: Kind, c: char)
    requires WholePieces(pieces)
    ensures WholePieces(Extended(pieces, kind, c))
  {
  }

  /** Reading a text as marked characters and reading it as pieces is the same: the pieces are not empty,
      no two neighbours are of one kind, and they hold exactly the characters. */
  lemma {:induction false} PiecesHoldAll(shown: Shown)
    ensures Marks(Pieces(shown)) == shown
    ensures WholePieces(Pieces(shown))
  {
    if shown != [] {
      hide Marks, Extended, WholePieces;
      var init, last := shown[..|shown| - 1], shown[|shown| - 1];
      PiecesHoldAll(init);
      ExtendedMarks(Pieces(init), last.0, last.1);
      ExtendedAreWhole(Pieces(init), last.0, last.1);
      assert shown == init + [last];
    }
  }

  // ---------- the order of the last flush ----------

  /** The last flush goes through every block once, lowest index first. */
  lemma {:induction false} AscendingIsInOrder(s: set<nat>)
    ensures forall i :: i in Ascending(s) <==> i in s
    ensures forall i, j | 0 <= i < j < |Ascending(s)| :: Ascending(s)[i] < Ascending(s)[j]
  {
    if s != {} {
      var m := MinOf(s);
      AscendingIsInOrder(s - {m});
      var rest := Ascending(s - {m});
      forall i, j | 0 <= i < j < |Ascending(s)| ensures Ascending(s)[i] < Ascending(s)[j] {
        assert rest[j - 1] in rest;
      }
    }
  }

  // ---------- what is refused for its size ----------

  lemma {:induction false} LineGrowsEvent(ses: Session, c: Core, line: seq<Byte>)
    requires ConsumeLine(ses, c, line).Ok?
    ensures |ConsumeLine(ses, c, line).value.0.framing.raw| <= |c.framing.raw| + |line|
  {
    hide OnEvent;
  }

  lemma {:induction false} LineErrors(ses: Session, c: Core, line: seq<Byte>)
    ensures ConsumeLine(ses, c, line) != Err(Oversized)
  {
    hide StreamingCut.Transform, SafeLen, Emit;
  }

  /** Lines that fit are never refused for their size, and leave no more collected than they hold. */
  lemma {:induction false} FittingLinesPass(ses: Session, c: Core, lines: seq<seq<Byte>>)
    requires |c.framing.raw| + |Flatten(lines)| <= MAX_BUFFERED_BYTES
    ensures ConsumeCapped(ses, c, lines) != Err(Oversized)
    ensures ConsumeCapped(ses, c, lines).Ok? ==>
              |ConsumeCapped(ses, c, lines).value.0.framing.raw| <= |c.framing.raw| + |Flatten(lines)|
    decreases |lines|
  {
    hide ConsumeLine;
    if lines != [] {
      LineErrors(ses, c, lines[0]);
      var r := ConsumeLine(ses, c, lines[0]);
      if r.Ok? {
        LineGrowsEvent(ses, c, lines[0]);
        FittingLinesPass(ses, r.value.0, lines[1..]);
      }
    }
  }

  lemma {:induction false} LinesFit(buf: seq<Byte>)
    ensures |Flatten(CompleteLines(buf))| + |LastPart(buf)| == |buf|
    decreases |buf|
  {
    hide NewlineAt, CompleteLines, LastPart;
    FirstLine(buf);
    var i := NewlineAt(buf);
    if i < |buf| {
      LinesFit(buf[i + 1..]);
      assert ([buf[..i + 1]] + CompleteLines(buf[i + 1..]))[1..] == CompleteLines(buf[i + 1..]);
    }
  }

  /** A chunk is refused as oversized exactly when what is buffered of the line and of the event, with
      the chunk, is more than the cap; and what a chunk leaves buffered is never more. */
  lemma {:induction false} OversizedExactly(ses: Session, st: State, chunk: seq<Byte>)
    ensures PushChunk(ses, st, chunk) == Err(Oversized)
       <==> |st.lineBuf| + |chunk| + |st.core.framing.raw| > 0x80_0000
    ensures PushChunk(ses, st, chunk).Ok? ==>
              var t := PushChunk(ses, st, chunk).value.0;
              |t.lineBuf| + |t.core.framing.raw| <= 0x80_0000
  {
    hide ConsumeCapped, CompleteLines, LastPart;
    var buf := st.lineBuf + chunk;
    if |buf| + |st.core.framing.raw| <= MAX_BUFFERED_BYTES {
      LinesFit(buf);
      FittingLinesPass(ses, st.core, CompleteLines(buf));
    }
  }
}
