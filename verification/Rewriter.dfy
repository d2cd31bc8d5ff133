/** The streaming response rewriter as a function of its state: line splitting, event framing, and
    the per-block buffers. The class in `SseRewriter` is proved against it. */
module Rewriter {
  import opened Text
  import opened Sealing
  import opened Detokenize
  import opened Keywords
  import opened StreamingCut

  const MAX_BUFFERED_BYTES: nat := 8 * 1024 * 1024
  const NEWLINE: Byte := 10
  const RETURN: Byte := 13
  const SPACE: Byte := 32

  datatype Kind = TextKind | InputJson | Thinking

  function RenderingOf(kind: Kind): Rendering {
    if kind.InputJson? then JsonEscaped else Verbatim
  }

  /** Unrecognized frame fields, carried through. */
  type Extras = string

  /** A decoded event; the payload is absent when it is not a string. */
  datatype Frame =
    | TextDelta(index: nat, kind: Kind, payload: Option<string>, extras: Extras)
    | OtherDelta(index: nat)
    | BlockStop(index: nat)
    | OtherFrame

  /** Text decoding, frame decoding and frame printing are parameters. */
  datatype Codec = Codec(
    utf8: seq<Byte> -> Option<string>,
    parse: string -> Option<Frame>,
    printFrame: (nat, Kind, string, Extras) -> seq<Byte>)

  datatype Session = Session(codec: Codec, sealer: Sealer, keywords: seq<Keyword>) {
    predicate Valid() { forall kw | kw in keywords :: kw.Valid() }

    function Transform(kind: Kind, text: string): Result<string, DetokenizeError> {
      StreamingCut.Transform(sealer, keywords, RenderingOf(kind), text)
    }
  }

  datatype Reason = NotUtf8 | NotJson | PayloadNotString

  datatype RewriteError =
    | DetokenizeFailed(cause: DetokenizeError)
    | UnparseableEvent(reason: Reason)
    | Oversized

  /** What is sent on: bytes as received, or a synthesized text delta. */
  datatype Out =
    | Raw(bytes: seq<Byte>)
    | Delta(index: nat, kind: Kind, text: string, extras: Extras, named: bool)

  datatype Block = Block(kind: Kind, pending: string, extras: Extras)

  /** The event being collected. */
  datatype Framing = Framing(raw: seq<Byte>, data: seq<string>, named: bool)

  /** The part of the state that events act on. */
  datatype Sink = Sink(useEventNames: bool, blocks: map<nat, Block>)

  datatype Core = Core(framing: Framing, sink: Sink)

  datatype State = State(lineBuf: seq<Byte>, core: Core)

  const NO_EVENT := Framing([], [], false)
  const FRESH := Core(NO_EVENT, Sink(false, map[]))

  // ---------- bytes on the wire ----------

  function Ascii(s: string): seq<Byte> {
    seq(|s|, i requires 0 <= i < |s| => (s[i] as int % 256) as Byte)
  }

  function WireOne(codec: Codec, o: Out): seq<Byte> {
    match o
    case Raw(bytes) => bytes
    case Delta(index, kind, text, extras, named) =>
      (if named then Ascii("event: content_block_delta\n") else [])
      + Ascii("data: ") + codec.printFrame(index, kind, text, extras) + Ascii("\n\n")
  }

  function Wire(codec: Codec, outs: seq<Out>): seq<Byte> {
    if outs == [] then [] else WireOne(codec, outs[0]) + Wire(codec, outs[1..])
  }

  // ---------- blocks ----------

  function Emit(index: nat, kind: Kind, text: string, extras: Extras, named: bool): seq<Out> {
    if text == "" then [] else [Delta(index, kind, text, extras, named)]
  }

  /** Rewrites and emits what a block still holds. */
  function FlushBlock(ses: Session, s: Sink, index: nat): Result<(Sink, seq<Out>), RewriteError> {
    if index !in s.blocks || s.blocks[index].pending == "" then Ok((s, []))
    else
      var b := s.blocks[index];
      match ses.Transform(b.kind, b.pending)
      case Err(e) => Err(DetokenizeFailed(e))
      case Ok(text) =>
        Ok((s.(blocks := s.blocks[index := b.(pending := "")]),
            Emit(index, b.kind, text, b.extras, s.useEventNames)))
  }

  function CloseBlock(ses: Session, s: Sink, index: nat): Result<(Sink, seq<Out>), RewriteError> {
    match FlushBlock(ses, s, index)
    case Err(e) => Err(e)
    case Ok((t, outs)) => Ok((t.(blocks := t.blocks - {index}), outs))
  }

  /** Adds a payload to its block and emits the part no match can straddle any more. */
  function Grow(ses: Session, s: Sink, index: nat, kind: Kind, payload: string, extras: Extras)
    : Result<(Sink, seq<Out>), RewriteError>
  {
    var pending := (if index in s.blocks then s.blocks[index].pending else "") + payload;
    var safe := SafeLen(pending, ses.keywords);
    var held := s.(blocks := s.blocks[index := Block(kind, pending[safe..], extras)]);
    if safe == 0 then Ok((held, []))
    else
      match ses.Transform(kind, pending[..safe])
      case Err(e) => Err(DetokenizeFailed(e))
      case Ok(text) => Ok((held, Emit(index, kind, text, extras, s.useEventNames)))
  }

  function RewriteDelta(ses: Session, s: Sink, index: nat, kind: Kind, payload: string, extras: Extras)
    : Result<(Sink, seq<Out>), RewriteError>
  {
    if index in s.blocks && s.blocks[index].kind != kind then
      match CloseBlock(ses, s, index)
      case Err(e) => Err(e)
      case Ok((t, flushed)) =>
        match Grow(ses, t, index, kind, payload, extras)
        case Err(e) => Err(e)
        case Ok((u, outs)) => Ok((u, flushed + outs))
    else Grow(ses, s, index, kind, payload, extras)
  }

  // ---------- events ----------

  datatype Event = Event(raw: seq<Byte>, data: seq<string>, named: bool)

  datatype Action =
    | Pass
    | Text(index: nat, kind: Kind, payload: string, extras: Extras)
    | Flush(index: nat)
    | Close(index: nat)

  function JoinLines(data: seq<string>): string {
    if data == [] then "" else if |data| == 1 then data[0] else data[0] + "\n" + JoinLines(data[1..])
  }

  function Classify(codec: Codec, data: seq<string>): Result<Action, RewriteError> {
    if data == [] || JoinLines(data) == "[DONE]" then Ok(Pass)
    else
      match codec.parse(JoinLines(data))
      case None => Err(UnparseableEvent(NotJson))
      case Some(TextDelta(_, _, None, _)) => Err(UnparseableEvent(PayloadNotString))
      case Some(TextDelta(index, kind, Some(payload), extras)) => Ok(Text(index, kind, payload, extras))
      case Some(OtherDelta(index)) => Ok(Flush(index))
      case Some(BlockStop(index)) => Ok(Close(index))
      case Some(OtherFrame) => Ok(Pass)
  }

  function WithRaw(r: Result<(Sink, seq<Out>), RewriteError>, raw: seq<Byte>): Result<(Sink, seq<Out>), RewriteError> {
    match r
    case Err(e) => Err(e)
    case Ok((t, outs)) => Ok((t, outs + [Raw(raw)]))
  }

  function Act(ses: Session, s: Sink, a: Action, raw: seq<Byte>, named: bool): Result<(Sink, seq<Out>), RewriteError> {
    match a
    case Pass => Ok((s, [Raw(raw)]))
    case Text(index, kind, payload, extras) =>
      RewriteDelta(ses, s.(useEventNames := named), index, kind, payload, extras)
    case Flush(index) => WithRaw(FlushBlock(ses, s, index), raw)
    case Close(index) => WithRaw(CloseBlock(ses, s, index), raw)
  }

  function OnEvent(ses: Session, s: Sink, e: Event): Result<(Sink, seq<Out>), RewriteError> {
    match Classify(ses.codec, e.data)
    case Err(error) => Err(error)
    case Ok(a) => Act(ses, s, a, e.raw, e.named)
  }

  function OnEvents(ses: Session, s: Sink, events: seq<Event>): Result<(Sink, seq<Out>), RewriteError>
    decreases |events|
  {
    if events == [] then Ok((s, []))
    else
      match OnEvent(ses, s, events[0])
      case Err(e) => Err(e)
      case Ok((t, outs)) =>
        match OnEvents(ses, t, events[1..])
        case Err(e) => Err(e)
        case Ok((u, more)) => Ok((u, outs + more))
  }

  // ---------- lines ----------

  function StripField(line: seq<Byte>, field: seq<Byte>): Option<seq<Byte>> {
    if field <= line then
      var rest := line[|field|..];
      Some(if rest != [] && rest[0] == SPACE then rest[1..] else rest)
    else None
  }

  /** A line without its terminator. */
  function StripEnd(raw: seq<Byte>): seq<Byte> {
    var line := if raw != [] && raw[|raw| - 1] == NEWLINE then raw[..|raw| - 1] else raw;
    if line != [] && line[|line| - 1] == RETURN then line[..|line| - 1] else line
  }

  /** Adds a line to the event being collected; a blank line completes it. */
  function FrameLine(codec: Codec, f: Framing, raw: seq<Byte>): Result<(Framing, Option<Event>), RewriteError> {
    var g := f.(raw := f.raw + raw);
    var line := StripEnd(raw);
    if line == [] then Ok((NO_EVENT, Some(Event(g.raw, g.data, g.named))))
    else
      match StripField(line, Ascii("data:"))
      case Some(rest) =>
        (match codec.utf8(rest)
         case None => Err(UnparseableEvent(NotUtf8))
         case Some(text) => Ok((g.(data := g.data + [text]), None)))
      case None =>
        if StripField(line, Ascii("event:")).Some? then Ok((g.(named := true), None)) else Ok((g, None))
  }

  function ConsumeLine(ses: Session, c: Core, raw: seq<Byte>): Result<(Core, seq<Out>), RewriteError> {
    match FrameLine(ses.codec, c.framing, raw)
    case Err(e) => Err(e)
    case Ok((f, None)) => Ok((c.(framing := f), []))
    case Ok((f, Some(event))) =>
      match OnEvent(ses, c.sink, event)
      case Err(e) => Err(e)
      case Ok((s, outs)) => Ok((Core(f, s), outs))
  }

  function NewlineAt(buf: seq<Byte>): (i: nat)
    ensures i <= |buf| && (i < |buf| ==> buf[i] == NEWLINE)
    ensures forall j | 0 <= j < i :: buf[j] != NEWLINE
  {
    if buf == [] || buf[0] == NEWLINE then 0 else 1 + NewlineAt(buf[1..])
  }

  function CompleteLines(buf: seq<Byte>): seq<seq<Byte>>
    decreases |buf|
  {
    var i := NewlineAt(buf);
    if i == |buf| then [] else [buf[..i + 1]] + CompleteLines(buf[i + 1..])
  }

  function LastPart(buf: seq<Byte>): seq<Byte>
    decreases |buf|
  {
    var i := NewlineAt(buf);
    if i == |buf| then buf else LastPart(buf[i + 1..])
  }

  /** Lines one after the other, with the engine's check on the event under collection. */
  function ConsumeCapped(ses: Session, c: Core, lines: seq<seq<Byte>>): Result<(Core, seq<Out>), RewriteError>
    decreases |lines|
  {
    if lines == [] then Ok((c, []))
    else
      match ConsumeLine(ses, c, lines[0])
      case Err(e) => Err(e)
      case Ok((d, outs)) =>
        if |d.framing.raw| > MAX_BUFFERED_BYTES then Err(Oversized)
        else
          match ConsumeCapped(ses, d, lines[1..])
          case Err(e) => Err(e)
          case Ok((x, more)) => Ok((x, outs + more))
  }

  function PushChunk(ses: Session, st: State, chunk: seq<Byte>): Result<(State, seq<Out>), RewriteError> {
    var buf := st.lineBuf + chunk;
    if |buf| + |st.core.framing.raw| > MAX_BUFFERED_BYTES then Err(Oversized)
    else
      match ConsumeCapped(ses, st.core, CompleteLines(buf))
      case Err(e) => Err(e)
      case Ok((c, outs)) => Ok((State(LastPart(buf), c), outs))
  }

  // ---------- the end of the stream ----------

  lemma {:induction false} LeastElement(s: set<nat>) returns (m: nat)
    requires s != {}
    ensures m in s && forall x | x in s :: m <= x
  {
    m :| m in s;
    while exists x :: x in s && x < m
      invariant m in s
      decreases m
    {
      var x :| x in s && x < m;
      m := x;
    }
  }

  ghost function MinOf(s: set<nat>): (m: nat)
    requires s != {}
    ensures m in s && forall x | x in s :: m <= x
  {
    assert exists m :: m in s && forall x | x in s :: m <= x by {
      var least := LeastElement(s);
    }
    var m :| m in s && forall x | x in s :: m <= x;
    m
  }

  /** The keys of an ordered map, in order. */
  ghost function Ascending(s: set<nat>): seq<nat> {
    if s == {} then [] else [MinOf(s)] + Ascending(s - {MinOf(s)})
  }

  function FlushBlocks(ses: Session, s: Sink, indexes: seq<nat>): Result<(Sink, seq<Out>), RewriteError>
    decreases |indexes|
  {
    if indexes == [] then Ok((s, []))
    else
      match FlushBlock(ses, s, indexes[0])
      case Err(e) => Err(e)
      case Ok((t, outs)) =>
        match FlushBlocks(ses, t, indexes[1..])
        case Err(e) => Err(e)
        case Ok((u, more)) => Ok((u, outs + more))
  }

  function LastLine(ses: Session, st: State): Result<(Core, seq<Out>), RewriteError> {
    if st.lineBuf == [] then Ok((st.core, [])) else ConsumeLine(ses, st.core, st.lineBuf + [NEWLINE])
  }

  function LastEvent(ses: Session, c: Core): Result<(Sink, seq<Out>), RewriteError> {
    var f := c.framing;
    if f.raw != [] || f.data != [] then OnEvent(ses, c.sink, Event(f.raw, f.data, f.named)) else Ok((c.sink, []))
  }

  ghost function Finish(ses: Session, st: State): Result<seq<Out>, RewriteError> {
    match LastLine(ses, st)
    case Err(e) => Err(e)
    case Ok((c, a)) =>
      match LastEvent(ses, c)
      case Err(e) => Err(e)
      case Ok((s, b)) =>
        match FlushBlocks(ses, s, Ascending(s.blocks.Keys))
        case Err(e) => Err(e)
        case Ok((_, d)) => Ok(a + b + d)
  }

  function After<X>(done: seq<Out>, r: Result<(X, seq<Out>), RewriteError>): Result<(X, seq<Out>), RewriteError> {
    match r
    case Err(e) => Err(e)
    case Ok((x, outs)) => Ok((x, done + outs))
  }

  lemma {:induction false} AfterNothing<X>(r: Result<(X, seq<Out>), RewriteError>)
    ensures After([], r) == r
  {
    if r.Ok? {
      assert [] + r.value.1 == r.value.1;
    }
  }

  lemma {:induction false} AfterTwice<X>(a: seq<Out>, b: seq<Out>, r: Result<(X, seq<Out>), RewriteError>)
    ensures After(a, After(b, r)) == After(a + b, r)
  {
    if r.Ok? {
      assert a + (b + r.value.1) == (a + b) + r.value.1;
    }
  }

  // ---------- whole runs ----------

  function PushAll(ses: Session, st: State, chunks: seq<seq<Byte>>): Result<(State, seq<Out>), RewriteError>
    decreases |chunks|
  {
    if chunks == [] then Ok((st, []))
    else
      match PushChunk(ses, st, chunks[0])
      case Err(e) => Err(e)
      case Ok((t, outs)) =>
        match PushAll(ses, t, chunks[1..])
        case Err(e) => Err(e)
        case Ok((u, more)) => Ok((u, outs + more))
  }

  /** A stream from its first chunk to its end. */
  ghost function Run(ses: Session, chunks: seq<seq<Byte>>): Result<seq<Out>, RewriteError> {
    match PushAll(ses, State([], FRESH), chunks)
    case Err(e) => Err(e)
    case Ok((st, outs)) =>
      match Finish(ses, st)
      case Err(e) => Err(e)
      case Ok(last) => Ok(outs + last)
  }
}
