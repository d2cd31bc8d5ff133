/** What left-to-right substitution is: which occurrences are replaced, and that nothing else changes. */
module Splicing {
  import opened Text
  import opened Keywords
  import opened Detokenize

  /** `out` is `t[from..]` with the occurrences at the given positions replaced. */
  predicate Spliced(w: Swap, t: string, from: nat, at: seq<nat>, out: string)
    decreases |at|
  {
    if at == [] then from <= |t| && out == t[from..]
    else
      && from <= at[0] && at[0] + |w.needle| <= |t|
      && var head := t[from..at[0]] + w.Shaped(t[at[0]..at[0] + |w.needle|]);
      && head <= out
      && Spliced(w, t, at[0] + |w.needle|, at[1..], out[|head|..])
  }

  /** Every occurrence is one of those, or begins within one of those. */
  ghost predicate Exhaustive(w: Swap, t: string, from: nat, at: seq<nat>) {
    && (forall i | 0 <= i < |at| :: OccursAt(t, at[i], w.needle, w.caseSensitive))
    && forall p: nat | from <= p && OccursAt(t, p, w.needle, w.caseSensitive) ::
         exists i :: 0 <= i < |at| && at[i] <= p < at[i] + |w.needle|
  }

  /** The next occurrence from a position on. */
  lemma {:induction false} FirstOccurrence(w: Swap, t: string, from: nat) returns (found: Option<nat>)
    requires from <= |t| && w.needle != ""
    ensures found.None? ==> forall p: nat | from <= p :: !OccursAt(t, p, w.needle, w.caseSensitive)
    ensures found.Some? ==> from <= found.value && OccursAt(t, found.value, w.needle, w.caseSensitive)
                            && forall p | from <= p < found.value :: !OccursAt(t, p, w.needle, w.caseSensitive)
    decreases |t| - from
  {
    hide SameText;
    if OccursAt(t, from, w.needle, w.caseSensitive) {
      found := Some(from);
    } else if from == |t| {
      found := None;
    } else {
      found := FirstOccurrence(w, t, from + 1);
    }
  }

  lemma {:induction false} SpliceCons(w: Swap, t: string, from: nat, p: nat, at: seq<nat>, rest: string)
    requires from <= p && w.needle != "" && OccursAt(t, p, w.needle, w.caseSensitive)
    requires forall i | from <= i < p :: !OccursAt(t, i, w.needle, w.caseSensitive)
    requires Spliced(w, t, p + |w.needle|, at, rest) && Exhaustive(w, t, p + |w.needle|, at)
    ensures Spliced(w, t, from, [p] + at, t[from..p] + (w.Shaped(t[p..p + |w.needle|]) + rest))
    ensures Exhaustive(w, t, from, [p] + at)
  {
    hide SameText, Swap.Shaped;
    var all := [p] + at;
    var head := t[from..p] + w.Shaped(t[p..p + |w.needle|]);
    var out := t[from..p] + (w.Shaped(t[p..p + |w.needle|]) + rest);
    assert out == head + rest && out[|head|..] == rest && all[1..] == at;
    forall q: nat | from <= q && OccursAt(t, q, w.needle, w.caseSensitive)
      ensures exists i :: 0 <= i < |all| && all[i] <= q < all[i] + |w.needle|
    {
      if q < p + |w.needle| {
        assert all[0] <= q < all[0] + |w.needle|;
      } else {
        var i :| 0 <= i < |at| && at[i] <= q < at[i] + |w.needle|;
        assert all[i + 1] == at[i];
      }
    }
  }

  lemma {:induction false} SubstituteSplices(w: Swap, t: string, from: nat) returns (at: seq<nat>)
    requires from <= |t| && w.needle != ""
    ensures Spliced(w, t, from, at, Substitute(w, t[from..])) && Exhaustive(w, t, from, at)
    decreases |t| - from
  {
    hide Substitute, SameText, Swap.Shaped;
    var found := FirstOccurrence(w, t, from);
    if found.None? {
      SubstituteRest(w, t, from);
      at := [];
    } else {
      var p := found.value;
      var rest := SubstituteSplices(w, t, p + |w.needle|);
      SubstituteNext(w, t, from, p);
      SpliceCons(w, t, from, p, rest, Substitute(w, t[p + |w.needle|..]));
      at := [p] + rest;
    }
  }

  /** Substitution replaces occurrences that do not overlap, each by its shaped replacement, and leaves the
      text between them alone; an occurrence that is not replaced begins within one that is. */
  lemma {:induction false} EveryOccurrenceIsReplaced(w: Swap, t: string) returns (at: seq<nat>)
    requires w.needle != ""
    ensures Spliced(w, t, 0, at, Substitute(w, t))
    ensures forall i | 0 <= i < |at| :: OccursAt(t, at[i], w.needle, w.caseSensitive)
    ensures forall p: nat | OccursAt(t, p, w.needle, w.caseSensitive) :: exists i :: 0 <= i < |at| && at[i] <= p < at[i] + |w.needle|
  {
    hide OccursAt, Spliced;
    at := SubstituteSplices(w, t, 0);
    assert t[0..] == t;
  }

  /** Keywords are unmasked one after the other. */
  lemma {:induction false} UnmaskInTurn(a: seq<Keyword>, b: seq<Keyword>, r: Rendering, text: string)
    ensures Unmask(a + b, r, text) == Unmask(b, r, Unmask(a, r, text))
    decreases |a|
  {
    hide SubstituteOutsideSpans;
    if a == [] {
      assert a + b == b;
    } else {
      assert (a + b)[0] == a[0] && (a + b)[1..] == a[1..] + b;
      UnmaskInTurn(a[1..], b, r, SubstituteOutsideSpans(a[0].Unmasking(r), text));
    }
  }
}
