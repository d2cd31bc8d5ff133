/** How long a token is, and which values are sealed into tokens that the stream can hold back whole. */
module TokenLength {
  import opened Text
  import opened TokenSpan
  import opened Sealing
  import opened StreamingCut
  import opened StreamRefinement

  lemma {:induction false} SpanLength(category: string, payload: string)
    ensures |SpanOf(category, payload)| == |category| + |payload| + 9
  {
    assert |MARKER| == 6;
  }

  lemma {:induction false} SpanAtFront(t: string, category: string, payload: string)
    requires IsCategory(category) && IsPayload(payload) && SpanOf(category, payload) <= t
    ensures SpanLen(t) == |category| + |payload| + 9
  {
    hide SpanOf, SpanLen;
    BuiltSpanIsSpan(category, payload);
    SpanLength(category, payload);
    assert t[..|SpanOf(category, payload)|] == SpanOf(category, payload);
    SpanLenUnique(t, |SpanOf(category, payload)|);
  }

  /** Whether a text begins with the span of some parts. */
  predicate Begins(t: string, category: string, payload: string) {
    IsCategory(category) && IsPayload(payload) && SpanOf(category, payload) <= t
  }

  lemma {:induction false} FrontSpanParts(t: string) returns (category: string, payload: string)
    requires SpanLen(t) > 0
    ensures Begins(t, category, payload) && SpanLen(t) == |category| + |payload| + 9
  {
    hide SpanLen, SpanOf, IsCategory, IsPayload;
    category, payload := SpanParts(t[..SpanLen(t)]);
    SpanAtFront(t, category, payload);
  }

  /** The spans of a text fit the stream exactly when none has more than 4088 characters of category and
      payload together. */
  lemma {:induction false} FitsExactly(text: string)
    ensures SpansFit(text) <==>
              forall p: nat, category, payload | p < |text| && Begins(text[p..], category, payload) :: |category| + |payload| <= 4088
  {
    hide SpanLen, Begins;
    forall p: nat, category, payload | p < |text| && Begins(text[p..], category, payload)
      ensures SpanLen(text[p..]) == |category| + |payload| + 9
    {
      BeginsIsLong(text[p..], category, payload);
    }
    forall p: nat | p < |text| && SpanLen(text[p..]) > 0
      ensures exists category, payload :: Begins(text[p..], category, payload) && SpanLen(text[p..]) == |category| + |payload| + 9
    {
      var category, payload := FrontSpanParts(text[p..]);
    }
  }

  lemma {:induction false} BeginsIsLong(t: string, category: string, payload: string)
    requires Begins(t, category, payload)
    ensures SpanLen(t) == |category| + |payload| + 9
  {
    hide SpanLen, SpanOf, IsCategory, IsPayload;
    SpanAtFront(t, category, payload);
  }

  /** The length of a built token, given that the ciphertext is sixteen bytes longer than the value in UTF-8
      (RFC 5297) and the payload is base64url without padding (section 5 of RFC 4648). */
  lemma {:induction false} TokenIsThisLong(k: Sealer, category: string, value: string)
    requires BuildToken(k, category, value).Ok?
    requires |k.seal(category, value).value| == Utf8Len(value) + 16
    requires |k.encode(k.seal(category, value).value)| == (4 * |k.seal(category, value).value| + 2) / 3
    ensures |BuildToken(k, category, value).value| == |category| + (4 * Utf8Len(value) + 66) / 3 + 9
  {
    var payload := k.encode(k.seal(category, value).value);
    assert BuildToken(k, category, value).value == SpanOf(category, payload);
    SpanLength(category, payload);
  }

  /** Under any category a policy may use, a value of up to 3002 bytes makes a token that fits; under the
      longest, no longer value does. */
  lemma {:induction false} ValuesThatFit(k: Sealer, category: string, value: string)
    requires BuildToken(k, category, value).Ok? && IsValidRuleId(category)
    requires |k.seal(category, value).value| == Utf8Len(value) + 16
    requires |k.encode(k.seal(category, value).value)| == (4 * |k.seal(category, value).value| + 2) / 3
    ensures Utf8Len(value) <= 3002 ==> |BuildToken(k, category, value).value| <= MAX_TOKEN_SPAN_LEN + 1
    ensures |category| == 64 && |BuildToken(k, category, value).value| <= MAX_TOKEN_SPAN_LEN + 1 ==> Utf8Len(value) <= 3002
  {
    hide BuildToken;
    TokenIsThisLong(k, category, value);
  }
}
