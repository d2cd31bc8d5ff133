/** The split of a text into plain runs and token spans that scanning and unmasking share. */
module Segments {
  import opened Text
  import opened TokenSpan
  import Detokenize

  /** A run of text. The engine knows two kinds, plain and masked; masked segments are told apart
      here by where they come from, which nothing computed depends on: a token the scanned text
      already held, or a token built from the value it now hides. */
  datatype Segment =
    | Plain(text: string, origin: nat)
    | Existing(token: string, origin: nat)
    | Sealed(token: string, category: string, value: string, origin: nat)
  {
    /** The text this segment contributes to the output. */
    function Shown(): string {
      if Plain? then text else token
    }

    /** The stretch of the scanned text this segment stands for. */
    function Source(): string {
      match this
      case Plain(t, _) => t
      case Existing(t, _) => t
      case Sealed(_, _, v, _) => v
    }
  }

  function Shown(segments: seq<Segment>): string {
    if segments == [] then "" else segments[0].Shown() + Shown(segments[1..])
  }

  /** First position at or after `from` where a span starts, or the length. */
  function NextSpan(text: string, from: nat): (i: nat)
    requires from <= |text|
    ensures from <= i <= |text|
    ensures forall j | from <= j < i :: SpanLen(text[j..]) == 0
    ensures i < |text| ==> SpanLen(text[i..]) > 0 && text[i] == '['
    decreases |text| - from
  {
    if from == |text| then from
    else if SpanLen(text[from..]) > 0 then
      SpanLenNeedsBracket(text[from..]);
      from
    else NextSpan(text, from + 1)
  }

  function SegmentsFrom(text: string, from: nat): seq<Segment>
    requires from <= |text|
    decreases |text| - from
  {
    if from == |text| then []
    else
      var start := NextSpan(text, from);
      if from < start then
        [Plain(text[from..start], from)] + SegmentsFrom(text, start)
      else
        var n := SpanLen(text[from..]);
        [Existing(text[from..from + n], from)] + SegmentsFrom(text, from + n)
  }

  /** Cuts a text at every span it already holds. */
  function MaskedSegments(text: string): seq<Segment> {
    SegmentsFrom(text, 0)
  }

  lemma {:induction false} NextSpanIs(text: string, from: nat, i: nat)
    requires from <= i <= |text|
    requires forall j | from <= j < i :: SpanLen(text[j..]) == 0
    requires i < |text| ==> SpanLen(text[i..]) > 0
    ensures NextSpan(text, from) == i
  {
    hide SpanLen;
    var j := NextSpan(text, from);
  }

  /** What one match of the span expression adds: the plain run before it, if any, and the token. */
  lemma {:induction false} NextPiece(text: string, from: nat, start: nat)
    requires from <= start < |text| && start == NextSpan(text, from)
    ensures SegmentsFrom(text, from)
            == (if start > from then [Plain(text[from..start], from)] else [])
               + [Existing(text[start..start + SpanLen(text[start..])], start)]
               + SegmentsFrom(text, start + SpanLen(text[start..]))
  {
    hide SpanLen;
    NextSpanIs(text, start, start);
    if from == start {
      assert forall s: seq<Segment> :: [] + s == s;
    }
  }

  /** The next match of the span expression. */
  method FindNextSpan(text: string, from: nat) returns (found: Option<(nat, nat)>)
    requires from <= |text|
    ensures found.None? ==> NextSpan(text, from) == |text|
    ensures found.Some? ==>
              var (start, end) := found.value;
              from <= start < end <= |text| && start == NextSpan(text, from) && end == start + SpanLen(text[start..])
  {
    hide SpanLen, NextSpan;
    found := Detokenize.FindSpan(text, from);
    NextSpanIs(text, from, if found.None? then |text| else found.value.0);
  }

  /** The engine's loop over the matches of the span expression. */
  method MaskSpans(text: string) returns (segments: seq<Segment>)
    ensures segments == MaskedSegments(text)
  {
    hide SpanLen, NextSpan, SegmentsFrom;
    segments := [];
    var last := 0;
    while true
      invariant 0 <= last <= |text|
      invariant MaskedSegments(text) == segments + SegmentsFrom(text, last)
      decreases |text| - last
    {
      var found := FindNextSpan(text, last);
      if found.None? {
        LastPiece(text, last);
        if last < |text| {
          segments := segments + [Plain(text[last..], last)];
        }
        return;
      }
      var (start, end) := found.value;
      NextPiece(text, last, start);
      var piece := if start > last then [Plain(text[last..start], last)] else [];
      piece := piece + [Existing(text[start..end], start)];
      Reassociate(segments, piece, SegmentsFrom(text, end));
      segments := segments + piece;
      last := end;
    }
  }

  lemma {:induction false} Reassociate(a: seq<Segment>, b: seq<Segment>, c: seq<Segment>)
    ensures a + (b + c) == (a + b) + c
  {
  }

  lemma {:induction false} LastPiece(text: string, from: nat)
    requires from <= |text| == NextSpan(text, from)
    ensures SegmentsFrom(text, from) == if from < |text| then [Plain(text[from..], from)] else []
  {
    hide SpanLen;
    assert text[from..|text|] == text[from..];
    assert SegmentsFrom(text, |text|) == [];
  }

  lemma {:induction false} ShownConcat(a: seq<Segment>, b: seq<Segment>)
    ensures Shown(a + b) == Shown(a) + Shown(b)
  {
    if a == [] {
      assert a + b == b;
    } else {
      assert (a + b)[0] == a[0] && (a + b)[1..] == a[1..] + b;
      ShownConcat(a[1..], b);
    }
  }
}
