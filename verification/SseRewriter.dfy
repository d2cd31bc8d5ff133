/** The rewriter as the proxy runs it: one object whose buffers every call updates. */
module SseRewriterClass {
  import opened Text
  import opened StreamingCut
  import opened Rewriter
  import RewriterRuns

  class SseRewriter {
    const session: Session
    var lineBuf: seq<Byte>
    var eventRaw: seq<Byte>
    var eventData: seq<string>
    var sawEventName: bool
    var useEventNames: bool
    var blocks: map<nat, Block>

    constructor (session: Session)
      ensures this.session == session && St() == State([], FRESH)
    {
      this.session := session;
      lineBuf, eventRaw, eventData := [], [], [];
      sawEventName, useEventNames, blocks := false, false, map[];
    }

    ghost function TheSink(): Sink
      reads this
    {
      Sink(useEventNames, blocks)
    }

    ghost function TheCore(): Core
      reads this
    {
      Core(Framing(eventRaw, eventData, sawEventName), TheSink())
    }

    ghost function St(): State
      reads this
    {
      State(lineBuf, TheCore())
    }

    /** The bytes of one synthesized delta. */
    method EmitDelta(index: nat, kind: Kind, text: string, extras: Extras) returns (out: seq<Byte>)
      ensures out == WireOne(session.codec, Delta(index, kind, text, extras, useEventNames))
    {
      out := [];
      if useEventNames {
        out := Ascii("event: content_block_delta\n");
      }
      out := out + Ascii("data: ");
      out := out + session.codec.printFrame(index, kind, text, extras);
      out := out + Ascii("\n\n");
    }

    method FlushBlock(index: nat) returns (res: Result<seq<Byte>, RewriteError>)
      requires session.Valid()
      modifies this`blocks
      ensures match Rewriter.FlushBlock(session, old(TheSink()), index)
              case Err(e) => res == Err(e)
              case Ok((s, outs)) => res == Ok(Wire(session.codec, outs)) && TheSink() == s
    {
      hide StreamingCut.Transform, WireOne;
      if index !in blocks || blocks[index].pending == "" {
        return Ok([]);
      }
      var b := blocks[index];
      blocks := blocks[index := b.(pending := "")];
      var transformed := UnmaskAndDetokenize(session.sealer, session.keywords, RenderingOf(b.kind), b.pending);
      if transformed.Err? {
        return Err(DetokenizeFailed(transformed.error));
      }
      var out := [];
      if transformed.value != "" {
        out := EmitDelta(index, b.kind, transformed.value, b.extras);
        OneOut(session.codec, Delta(index, b.kind, transformed.value, b.extras, useEventNames));
      }
      return Ok(out);
    }

    /** Buffers a payload and emits the transformed safe prefix. */
    method RewriteDelta(index: nat, kind: Kind, payload: string, extras: Extras)
      returns (res: Result<seq<Byte>, RewriteError>)
      requires session.Valid()
      modifies this`blocks
      ensures match Rewriter.RewriteDelta(session, old(TheSink()), index, kind, payload, extras)
              case Err(e) => res == Err(e)
              case Ok((s, outs)) => res == Ok(Wire(session.codec, outs)) && TheSink() == s
    {
      hide StreamingCut.Transform, WireOne, SafeLen;
      var out := [];
      ghost var flushed: seq<Out> := [];
      if index in blocks && blocks[index].kind != kind {
        ghost var before := Rewriter.FlushBlock(session, TheSink(), index);
        var r := FlushBlock(index);
        if r.Err? {
          return r;
        }
        flushed := before.value.1;
        out := r.value;
        blocks := blocks - {index};
      }
      ghost var mid := TheSink();
      var pending := (if index in blocks then blocks[index].pending else "") + payload;
      var safe := SafePrefixLen(pending, session.keywords);
      if safe == 0 {
        assert pending[0..] == pending;
        blocks := blocks[index := Block(kind, pending, extras)];
        WireConcat(session.codec, flushed, []);
        assert out + [] == out && flushed + [] == flushed;
        return Ok(out);
      }
      blocks := blocks[index := Block(kind, pending[safe..], extras)];
      var transformed := UnmaskAndDetokenize(session.sealer, session.keywords, RenderingOf(kind), pending[..safe]);
      if transformed.Err? {
        return Err(DetokenizeFailed(transformed.error));
      }
      var more := [];
      if transformed.value != "" {
        more := EmitDelta(index, kind, transformed.value, extras);
        OneOut(session.codec, Delta(index, kind, transformed.value, extras, useEventNames));
      }
      WireConcat(session.codec, flushed, Emit(index, kind, transformed.value, extras, useEventNames));
      return Ok(out + more);
    }

    method OnEventComplete() returns (res: Result<seq<Byte>, RewriteError>)
      requires session.Valid()
      modifies this`eventRaw, this`eventData, this`sawEventName, this`useEventNames, this`blocks
      ensures var f := old(TheCore()).framing;
              match OnEvent(session, old(TheSink()), Event(f.raw, f.data, f.named))
              case Err(e) => res == Err(e)
              case Ok((s, outs)) => res == Ok(Wire(session.codec, outs)) && TheCore() == Core(NO_EVENT, s)
    {
      hide Rewriter.FlushBlock, Rewriter.RewriteDelta, WireOne;
      var raw, data, hadEventName := eventRaw, eventData, sawEventName;
      eventRaw, eventData, sawEventName := [], [], false;
      RawOut(session.codec, raw);
      if data == [] {
        return Ok(raw);
      }
      var joined := JoinLines(data);
      if joined == "[DONE]" {
        return Ok(raw);
      }
      var frame := session.codec.parse(joined);
      match frame {
        case None =>
          return Err(UnparseableEvent(NotJson));
        case Some(TextDelta(index, kind, payload, extras)) =>
          useEventNames := hadEventName;
          if payload.None? {
            return Err(UnparseableEvent(PayloadNotString));
          }
          res := RewriteDelta(index, kind, payload.value, extras);
        case Some(OtherDelta(index)) =>
          ghost var flushed := Rewriter.FlushBlock(session, TheSink(), index);
          res := FlushBlock(index);
          if res.Ok? {
            WireConcat(session.codec, flushed.value.1, [Raw(raw)]);
            res := Ok(res.value + raw);
          }
        case Some(BlockStop(index)) =>
          ghost var flushed := Rewriter.FlushBlock(session, TheSink(), index);
          res := FlushBlock(index);
          if res.Ok? {
            blocks := blocks - {index};
            WireConcat(session.codec, flushed.value.1, [Raw(raw)]);
            res := Ok(res.value + raw);
          }
        case Some(OtherFrame) =>
          return Ok(raw);
      }
    }

    /** Consumes one raw line, terminator included. */
    method ConsumeLine(raw: seq<Byte>) returns (res: Result<seq<Byte>, RewriteError>)
      requires session.Valid()
      modifies this`eventRaw, this`eventData, this`sawEventName, this`useEventNames, this`blocks
      ensures match Rewriter.ConsumeLine(session, old(TheCore()), raw)
              case Err(e) => res == Err(e)
              case Ok((c, outs)) => res == Ok(Wire(session.codec, outs)) && TheCore() == c
    {
      hide OnEvent, StripField, Ascii;
      eventRaw := eventRaw + raw;
      var line := raw;
      if line != [] && line[|line| - 1] == NEWLINE {
        line := line[..|line| - 1];
      }
      if line != [] && line[|line| - 1] == RETURN {
        line := line[..|line| - 1];
      }
      if line == [] {
        res := OnEventComplete();
        return;
      }
      var data := StripField(line, Ascii("data:"));
      if data.Some? {
        var text := session.codec.utf8(data.value);
        if text.None? {
          return Err(UnparseableEvent(NotUtf8));
        }
        eventData := eventData + [text.value];
      } else if StripField(line, Ascii("event:")).Some? {
        sawEventName := true;
      }
      return Ok([]);
    }

    /** Feeds one chunk; the result is what may be forwarded now. */
    method PushChunk(chunk: seq<Byte>) returns (res: Result<seq<Byte>, RewriteError>)
      requires session.Valid()
      modifies this
      ensures match Rewriter.PushChunk(session, old(St()), chunk)
              case Err(e) => res == Err(e)
              case Ok((st, outs)) => res == Ok(Wire(session.codec, outs)) && St() == st
    {
      hide Rewriter.ConsumeLine, OnEvent, WireOne, CompleteLines, LastPart, NewlineAt, ConsumeCapped;
      lineBuf := lineBuf + chunk;
      if |lineBuf| + |eventRaw| > MAX_BUFFERED_BYTES {
        return Err(Oversized);
      }
      var out := [];
      ghost var buf := lineBuf;
      ghost var goal := ConsumeCapped(session, TheCore(), CompleteLines(buf));
      ghost var done: seq<Out> := [];
      var nl := NewlineAt(lineBuf);
      AfterNothing(goal);
      while nl < |lineBuf|
        invariant nl == NewlineAt(lineBuf)
        invariant LastPart(buf) == LastPart(lineBuf)
        invariant out == Wire(session.codec, done)
        invariant goal == After(done, ConsumeCapped(session, TheCore(), CompleteLines(lineBuf)))
        decreases |lineBuf|
      {
        RewriterRuns.FirstLine(lineBuf);
        var line := lineBuf[..nl + 1];
        lineBuf := lineBuf[nl + 1..];
        ghost var step := Rewriter.ConsumeLine(session, TheCore(), line);
        CappedStep(session, TheCore(), line, CompleteLines(lineBuf));
        var r := ConsumeLine(line);
        if r.Err? {
          return r;
        }
        if |eventRaw| > MAX_BUFFERED_BYTES {
          return Err(Oversized);
        }
        WireConcat(session.codec, done, step.value.1);
        AfterTwice(done, step.value.1, ConsumeCapped(session, TheCore(), CompleteLines(lineBuf)));
        done := done + step.value.1;
        out := out + r.value;
        nl := NewlineAt(lineBuf);
      }
      RewriterRuns.FirstLine(lineBuf);
      NoMoreLines(session, TheCore(), done);
      return Ok(out);
    }

    /** Flushes every block, lowest index first. */
    method FlushAll() returns (res: Result<seq<Byte>, RewriteError>)
      requires session.Valid()
      modifies this
      ensures match FlushBlocks(session, old(TheSink()), Ascending(old(blocks.Keys)))
              case Err(e) => res == Err(e)
              case Ok((_, outs)) => res == Ok(Wire(session.codec, outs))
    {
      hide Rewriter.FlushBlock, Wire, FlushBlocks, Ascending;
      var out := [];
      var keys := blocks.Keys;
      ghost var goal := FlushBlocks(session, TheSink(), Ascending(keys));
      ghost var flushed: seq<Out> := [];
      AfterNothing(goal);
      NothingOnTheWire(session.codec);
      while keys != {}
        invariant out == Wire(session.codec, flushed)
        invariant goal == After(flushed, FlushBlocks(session, TheSink(), Ascending(keys)))
        decreases |keys|
      {
        ghost var least := LeastElement(keys);
        var index :| index in keys && forall x | x in keys :: index <= x;
        AscendingStep(keys, index);
        FlushStep(session, TheSink(), index, Ascending(keys - {index}));
        ghost var step := Rewriter.FlushBlock(session, TheSink(), index);
        keys := keys - {index};
        var r := FlushBlock(index);
        if r.Err? {
          return r;
        }
        AfterTwice(flushed, step.value.1, FlushBlocks(session, TheSink(), Ascending(keys)));
        WireConcat(session.codec, flushed, step.value.1);
        flushed := flushed + step.value.1;
        out := out + r.value;
      }
      NoMoreBlocks(session, TheSink(), flushed);
      return Ok(out);
    }

    /** Flushes and rewrites everything still buffered at the end of the stream. */
    method Finish() returns (res: Result<seq<Byte>, RewriteError>)
      requires session.Valid()
      modifies this
      ensures match Rewriter.Finish(session, old(St()))
              case Err(e) => res == Err(e)
              case Ok(outs) => res == Ok(Wire(session.codec, outs))
    {
      hide Rewriter.ConsumeLine, Rewriter.FlushBlock, OnEvent, WireOne, FlushBlocks, Ascending;
      var out := [];
      ghost var done: seq<Out> := [];
      if lineBuf != [] {
        var last := lineBuf + [NEWLINE];
        lineBuf := [];
        ghost var step := Rewriter.ConsumeLine(session, TheCore(), last);
        var r := ConsumeLine(last);
        if r.Err? {
          return r;
        }
        done := step.value.1;
        out := r.value;
      }
      ghost var ended: seq<Out> := [];
      ghost var c := TheCore();
      if eventRaw != [] || eventData != [] {
        ghost var step := LastEvent(session, c);
        var r := OnEventComplete();
        if r.Err? {
          return r;
        }
        ended := step.value.1;
        out := out + r.value;
      }
      WireConcat(session.codec, done, ended);
      assert LastEvent(session, c) == Ok((TheSink(), ended));
      ghost var flushed := FlushBlocks(session, TheSink(), Ascending(blocks.Keys));
      var r := FlushAll();
      if r.Err? {
        return r;
      }
      WireConcat(session.codec, done + ended, flushed.value.1);
      assert flushed.Ok? && Rewriter.Finish(session, old(St())) == Ok(done + ended + flushed.value.1);
      assert out == Wire(session.codec, done + ended);
      return Ok(out + r.value);
    }
  }

  // ---------- bookkeeping of the loops ----------

  lemma {:induction false} AscendingStep(keys: set<nat>, index: nat)
    requires index in keys && forall x | x in keys :: index <= x
    ensures Ascending(keys) == [index] + Ascending(keys - {index})
  {
    assert index == MinOf(keys);
  }

  lemma {:induction false} FlushStep(ses: Session, s: Sink, index: nat, rest: seq<nat>)
    ensures FlushBlocks(ses, s, [index] + rest) ==
            match FlushBlock(ses, s, index)
            case Err(e) => Err(e)
            case Ok((t, outs)) => After(outs, FlushBlocks(ses, t, rest))
  {
    hide FlushBlock;
    assert ([index] + rest)[1..] == rest;
  }

  lemma {:induction false} NoMoreBlocks(ses: Session, s: Sink, done: seq<Out>)
    ensures After(done, FlushBlocks(ses, s, Ascending({}))) == Ok((s, done))
  {
    assert done + [] == done;
  }

  lemma {:induction false} NothingOnTheWire(codec: Codec)
    ensures Wire(codec, []) == []
  {
  }

  lemma {:induction false} CappedStep(ses: Session, c: Core, line: seq<Byte>, rest: seq<seq<Byte>>)
    ensures ConsumeCapped(ses, c, [line] + rest) ==
            match ConsumeLine(ses, c, line)
            case Err(e) => Err(e)
            case Ok((d, outs)) =>
              if |d.framing.raw| > MAX_BUFFERED_BYTES then Err(Oversized) else After(outs, ConsumeCapped(ses, d, rest))
  {
    hide ConsumeLine;
    assert ([line] + rest)[1..] == rest;
  }

  lemma {:induction false} NoMoreLines(ses: Session, c: Core, done: seq<Out>)
    ensures After(done, ConsumeCapped(ses, c, [])) == Ok((c, done))
  {
    assert done + [] == done;
  }

  lemma {:induction false} WireConcat(codec: Codec, a: seq<Out>, b: seq<Out>)
    ensures Wire(codec, a + b) == Wire(codec, a) + Wire(codec, b)
  {
    hide WireOne;
    if a == [] {
      assert a + b == b;
    } else {
      assert (a + b)[0] == a[0] && (a + b)[1..] == a[1..] + b;
      WireConcat(codec, a[1..], b);
    }
  }

  lemma {:induction false} OneOut(codec: Codec, o: Out)
    ensures Wire(codec, [o]) == WireOne(codec, o)
  {
    hide WireOne;
    assert [o][1..] == [];
    assert WireOne(codec, o) + [] == WireOne(codec, o);
  }

  lemma {:induction false} RawOut(codec: Codec, raw: seq<Byte>)
    ensures Wire(codec, [Raw(raw)]) == raw
  {
    OneOut(codec, Raw(raw));
  }
}
