/** Cutting a tokenized text into the overlapping windows the model takes. */
module Windows {
  const SEQ_LEN := 256
  const MAX_CONTENT := SEQ_LEN - 2
  const WINDOW_STEP := MAX_CONTENT - 64

  type Range = (nat, nat)

  function Min(a: nat, b: nat): nat { if a < b then a else b }

  /** The windows step by a fixed stride, are as long as the model allows, and stop at the first that
      reaches the last token. */
  predicate IsWindowing(ranges: seq<Range>, n: nat) {
    && (forall i | 0 <= i < |ranges| :: ranges[i] == (WINDOW_STEP * i, Min(WINDOW_STEP * i + MAX_CONTENT, n)))
    && (forall i | 0 <= i < |ranges| - 1 :: ranges[i].1 < n)
    && (|ranges| == 0 <==> n == 0)
    && (n > 0 ==> ranges[|ranges| - 1].0 < ranges[|ranges| - 1].1 == n)
  }

  method WindowRanges(n: nat) returns (ranges: seq<Range>)
    ensures IsWindowing(ranges, n)
  {
    if n == 0 {
      return [];
    }
    ranges := [];
    var start := 0;
    while true
      invariant start == WINDOW_STEP * |ranges| && start < n
      invariant forall i | 0 <= i < |ranges| :: ranges[i] == (WINDOW_STEP * i, WINDOW_STEP * i + MAX_CONTENT)
      invariant forall i | 0 <= i < |ranges| :: ranges[i].1 < n
      decreases n - start
    {
      var end := Min(start + MAX_CONTENT, n);
      ranges := ranges + [(start, end)];
      if end == n {
        return ranges;
      }
      start := start + WINDOW_STEP;
    }
  }

  /** A text has one windowing. */
  lemma {:induction false} WindowingIsUnique(a: seq<Range>, b: seq<Range>, n: nat)
    requires IsWindowing(a, n) && IsWindowing(b, n)
    ensures a == b
  {
    assert n > 0 ==> a[|a| - 1].1 == n && b[|b| - 1].1 == n;
    assert forall i | 0 <= i < |a| && i < |b| :: a[i] == b[i];
  }

  /** Each window but the last is full, and the next begins exactly 64 tokens before its end. */
  lemma {:induction false} NeighboursOverlapBy64(ranges: seq<Range>, n: nat, i: nat)
    requires IsWindowing(ranges, n) && i + 1 < |ranges|
    ensures ranges[i].1 - ranges[i].0 == MAX_CONTENT && ranges[i].1 - ranges[i + 1].0 == 64
  {
  }

  /** A run of at most 65 tokens lies in one window; so every token does. */
  lemma {:induction false} ShortRunsAreWhole(ranges: seq<Range>, n: nat, first: nat, size: nat) returns (k: nat)
    requires IsWindowing(ranges, n) && 0 < size <= 65 && first + size <= n
    ensures k < |ranges| && ranges[k].0 <= first && first + size <= ranges[k].1
  {
    k := first / WINDOW_STEP;
    if k >= |ranges| {
      k := |ranges| - 1;
    }
    assert ranges[k] == (WINDOW_STEP * k, Min(WINDOW_STEP * k + MAX_CONTENT, n));
  }

  /** Which runs are whole in some window, for any length: those whose stride's window, or the last one,
      holds their end. */
  lemma {:induction false} WholeExactly(ranges: seq<Range>, n: nat, first: nat, size: nat)
    requires IsWindowing(ranges, n) && 0 < size && first + size <= n
    ensures (exists k :: 0 <= k < |ranges| && ranges[k].0 <= first && first + size <= ranges[k].1)
       <==> (first % WINDOW_STEP + size <= MAX_CONTENT || ranges[|ranges| - 1].0 <= first)
  {
    var q, last := first / WINDOW_STEP, |ranges| - 1;
    assert ranges[last] == (WINDOW_STEP * last, n);
    if ranges[last].0 > first {
      assert ranges[q] == (WINDOW_STEP * q, Min(WINDOW_STEP * q + MAX_CONTENT, n));
      forall k | 0 <= k < |ranges| && ranges[k].0 <= first && first + size <= ranges[k].1
        ensures first % WINDOW_STEP + size <= MAX_CONTENT
      {
        assert ranges[k] == (WINDOW_STEP * k, Min(WINDOW_STEP * k + MAX_CONTENT, n));
        assert k <= q;
      }
    }
  }
}
