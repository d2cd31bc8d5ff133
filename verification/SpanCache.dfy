/** The detector's answer cache: two generations, a hit in the old one is promoted. */
module SpanCache {
  import opened Text
  import opened Scan

  /** A text's length and two hashes. */
  type CacheKey = (nat, nat, nat)

  type Spans = seq<ExternalSpan>

  const CACHE_GENERATION_ENTRIES: nat := 2048

  datatype Generations = Generations(young: map<CacheKey, Spans>, aged: map<CacheKey, Spans>)

  const EMPTY := Generations(map[], map[])

  function Lookup(g: Generations, key: CacheKey): Option<Spans> {
    if key in g.young then Some(g.young[key])
    else if key in g.aged then Some(g.aged[key])
    else None
  }

  function Promote(g: Generations, key: CacheKey): Generations {
    if key !in g.young && key in g.aged then g.(young := g.young[key := g.aged[key]]) else g
  }

  function Store(g: Generations, key: CacheKey, spans: Spans): Generations {
    var h := if |g.young| >= CACHE_GENERATION_ENTRIES then Generations(map[], g.young) else g;
    h.(young := h.young[key := spans])
  }

  class Cache {
    var young: map<CacheKey, Spans>
    var aged: map<CacheKey, Spans>

    constructor ()
      ensures State() == EMPTY
    {
      young, aged := map[], map[];
    }

    ghost function State(): Generations
      reads this
    {
      Generations(young, aged)
    }

    method Get(key: CacheKey) returns (spans: Option<Spans>)
      modifies this
      ensures spans == Lookup(old(State()), key)
      ensures State() == Promote(old(State()), key)
    {
      if key in young {
        return Some(young[key]);
      }
      if key !in aged {
        return None;
      }
      spans := Some(aged[key]);
      young := young[key := spans.value];
    }

    method Put(key: CacheKey, spans: Spans)
      modifies this
      ensures State() == Store(old(State()), key, spans)
    {
      if |young| >= CACHE_GENERATION_ENTRIES {
        aged := young;
        young := map[];
      }
      young := young[key := spans];
    }
  }

  // ---------- traces ----------

  datatype Op = GetOp(key: CacheKey) | PutOp(key: CacheKey, spans: Spans)

  function Apply(g: Generations, op: Op): Generations {
    match op
    case GetOp(key) => Promote(g, key)
    case PutOp(key, spans) => Store(g, key, spans)
  }

  /** The state after a trace, last operation last. */
  function After(trace: seq<Op>): Generations {
    if trace == [] then EMPTY else Apply(After(trace[..|trace| - 1]), trace[|trace| - 1])
  }

  /** The value most recently put for a key. */
  function LatestPut(trace: seq<Op>, key: CacheKey): Option<Spans> {
    if trace == [] then None
    else
      var op := trace[|trace| - 1];
      if op.PutOp? && op.key == key then Some(op.spans) else LatestPut(trace[..|trace| - 1], key)
  }

  /** Whether the last operation of a trace put its key or found it. */
  predicate LastTouches(trace: seq<Op>)
    requires trace != []
  {
    var op := trace[|trace| - 1];
    op.PutOp? || Lookup(After(trace[..|trace| - 1]), op.key).Some?
  }

  /** Whether a key has been put or found at all. */
  predicate EverTouched(trace: seq<Op>, key: CacheKey) {
    trace != [] && ((trace[|trace| - 1].key == key && LastTouches(trace)) || EverTouched(trace[..|trace| - 1], key))
  }

  /** The other keys put or found since a key last was. */
  function OthersSince(trace: seq<Op>, key: CacheKey): set<CacheKey> {
    if trace == [] then {}
    else
      var op := trace[|trace| - 1];
      if !LastTouches(trace) then OthersSince(trace[..|trace| - 1], key)
      else if op.key == key then {}
      else OthersSince(trace[..|trace| - 1], key) + {op.key}
  }

  // ---------- every hit is the latest value ----------

  /** What a generation holds for a key, young first, is what was put for it last. */
  lemma {:induction false} HitsAreLatest(trace: seq<Op>, key: CacheKey)
    ensures Lookup(After(trace), key).Some? ==> Lookup(After(trace), key) == LatestPut(trace, key)
  {
    if trace != [] {
      HitsAreLatest(trace[..|trace| - 1], key);
    }
  }

  // ---------- retention ----------

  lemma {:induction false} SubsetSize<T>(a: set<T>, b: set<T>)
    requires a <= b
    ensures |a| <= |b|
  {
    if a != {} {
      var x :| x in a;
      SubsetSize(a - {x}, b - {x});
    }
  }

  /** A touched key is young; once it is old, everything young has been touched since. */
  lemma {:induction false} TouchedStays(trace: seq<Op>, key: CacheKey)
    requires EverTouched(trace, key) && |OthersSince(trace, key)| < CACHE_GENERATION_ENTRIES
    ensures var g := After(trace); key in g.young || (key in g.aged && g.young.Keys <= OthersSince(trace, key))
  {
    var before := trace[..|trace| - 1];
    var op := trace[|trace| - 1];
    var g := After(before);
    if op.key == key && LastTouches(trace) {
    } else {
      SubsetSize(OthersSince(before, key), OthersSince(trace, key));
      TouchedStays(before, key);
      assert |g.young.Keys| == |g.young|;
      if op.PutOp? && |g.young| >= CACHE_GENERATION_ENTRIES && key !in g.young {
        SubsetSize(g.young.Keys, OthersSince(before, key));
      }
    }
  }

  /** Retention: a key that has been put or found stays a hit, and with the value last put for it, as
      long as fewer distinct other keys than a generation holds have been put or found since. */
  lemma {:induction false} RecentlyUsedIsRetained(trace: seq<Op>, key: CacheKey)
    requires EverTouched(trace, key) && |OthersSince(trace, key)| < CACHE_GENERATION_ENTRIES
    ensures Lookup(After(trace), key).Some? && Lookup(After(trace), key) == LatestPut(trace, key)
  {
    TouchedStays(trace, key);
    HitsAreLatest(trace, key);
  }

  // ---------- the bound cannot be raised ----------

  function Key(n: nat): CacheKey { (n, 0, 0) }

  /** Puts of the keys 0 to n - 1. */
  function Fill(n: nat): seq<Op> {
    if n == 0 then [] else Fill(n - 1) + [PutOp(Key(n - 1), [])]
  }

  /** Then the keys 1 to n, looked up again. */
  function Revisit(n: nat): seq<Op> {
    if n == 0 then Fill(CACHE_GENERATION_ENTRIES + 1) else Revisit(n - 1) + [GetOp(Key(n))]
  }

  function Evicting(): seq<Op> {
    Revisit(CACHE_GENERATION_ENTRIES - 1) + [PutOp(Key(1), [])]
  }

  function Keys(lo: nat, hi: nat): set<CacheKey> {
    set n: nat | lo <= n < hi :: Key(n)
  }

  lemma {:induction false} KeysGrow(lo: nat, hi: nat)
    ensures Keys(lo, lo) == {}
    ensures lo <= hi ==> Keys(lo, hi + 1) == Keys(lo, hi) + {Key(hi)}
    ensures Key(hi) !in Keys(lo, hi)
  {
  }

  lemma {:induction false} KeysCount(lo: nat, hi: nat)
    requires lo <= hi
    ensures |Keys(lo, hi)| == hi - lo
    decreases hi
  {
    hide Keys;
    if lo == hi {
      KeysGrow(lo, lo);
    } else {
      KeysCount(lo, hi - 1);
      KeysGrow(lo, hi - 1);
    }
  }

  /** One more operation, with the state it leaves and the keys it touches. */
  lemma {:induction false} Extend(trace: seq<Op>, op: Op, key: CacheKey)
    requires op.PutOp? || Lookup(After(trace), op.key).Some?
    ensures After(trace + [op]) == Apply(After(trace), op)
    ensures EverTouched(trace + [op], key) == (op.key == key || EverTouched(trace, key))
    ensures OthersSince(trace + [op], key) == if op.key == key then {} else OthersSince(trace, key) + {op.key}
  {
    assert (trace + [op])[..|trace + [op]| - 1] == trace;
  }

  lemma {:induction false} AfterNothing(key: CacheKey)
    ensures After([]) == EMPTY && OthersSince([], key) == {}
  {
  }

  /** A put rotates the generations exactly when the young one is full. */
  lemma {:induction false} StoredKeys(g: Generations, key: CacheKey, spans: Spans, size: nat)
    requires |g.young.Keys| == size
    ensures size < CACHE_GENERATION_ENTRIES ==> Store(g, key, spans) == g.(young := g.young[key := spans])
    ensures size >= CACHE_GENERATION_ENTRIES ==> Store(g, key, spans) == Generations(map[][key := spans], g.young)
  {
    assert |g.young| == |g.young.Keys|;
  }

  lemma {:induction false} KeysOfUpdate(m: map<CacheKey, Spans>, key: CacheKey, spans: Spans)
    ensures m[key := spans].Keys == m.Keys + {key}
  {
  }

  lemma {:induction false} AfterFill(n: nat)
    requires n <= CACHE_GENERATION_ENTRIES
    ensures After(Fill(n)).young.Keys == Keys(0, n) && After(Fill(n)).aged == map[]
  {
    hide OthersSince, EverTouched, After, Store, Keys;
    if n == 0 {
      AfterNothing(Key(0));
      KeysGrow(0, 0);
    } else {
      var g, key := After(Fill(n - 1)), Key(n - 1);
      AfterFill(n - 1);
      KeysCount(0, n - 1);
      Extend(Fill(n - 1), PutOp(key, []), key);
      StoredKeys(g, key, [], n - 1);
      KeysOfUpdate(g.young, key, []);
      KeysGrow(0, n - 1);
    }
  }

  lemma {:induction false} FillTouches(n: nat)
    requires n > 0
    ensures EverTouched(Fill(n), Key(0)) && OthersSince(Fill(n), Key(0)) == Keys(1, n)
  {
    hide OthersSince, EverTouched, After, Store, Keys;
    Extend(Fill(n - 1), PutOp(Key(n - 1), []), Key(0));
    if n == 1 {
      KeysGrow(1, 1);
    } else {
      FillTouches(n - 1);
      KeysGrow(1, n - 1);
    }
  }

  lemma {:induction false} AfterRevisit(n: nat)
    requires n < CACHE_GENERATION_ENTRIES
    ensures var g := After(Revisit(n));
            && g.aged.Keys == Keys(0, CACHE_GENERATION_ENTRIES)
            && g.young.Keys == Keys(1, n + 1) + {Key(CACHE_GENERATION_ENTRIES)}
    ensures EverTouched(Revisit(n), Key(0)) && OthersSince(Revisit(n), Key(0)) == Keys(1, CACHE_GENERATION_ENTRIES + 1)
  {
    hide EverTouched, OthersSince, After, Store;
    var full := CACHE_GENERATION_ENTRIES;
    if n == 0 {
      AfterFill(full);
      FillTouches(full);
      KeysCount(0, full);
      Extend(Fill(full), PutOp(Key(full), []), Key(0));
      StoredKeys(After(Fill(full)), Key(full), [], full);
      assert Keys(1, 1) == {} && Keys(1, full + 1) == Keys(1, full) + {Key(full)};
    } else {
      AfterRevisit(n - 1);
      assert Key(n) in Keys(0, full) && Key(n) in Keys(1, full + 1);
      Extend(Revisit(n - 1), GetOp(Key(n)), Key(0));
      assert Keys(1, n + 1) == Keys(1, n) + {Key(n)};
      assert Keys(1, full + 1) + {Key(n)} == Keys(1, full + 1);
    }
  }

  /** The bound is exact: as many other keys as a generation holds can evict a key. */
  lemma {:induction false} RetentionBoundIsTight()
    ensures EverTouched(Evicting(), Key(0))
    ensures |OthersSince(Evicting(), Key(0))| == CACHE_GENERATION_ENTRIES
    ensures Lookup(After(Evicting()), Key(0)) == None
  {
    hide EverTouched, OthersSince, After, Store;
    var full := CACHE_GENERATION_ENTRIES;
    AfterRevisit(full - 1);
    Extend(Revisit(full - 1), PutOp(Key(1), []), Key(0));
    KeysCount(1, full + 1);
    var g := After(Revisit(full - 1));
    assert Keys(1, full + 1) == Keys(1, full) + {Key(full)};
    StoredKeys(g, Key(1), [], full);
    assert Key(1) in Keys(1, full + 1);
    assert Keys(1, full + 1) + {Key(1)} == Keys(1, full + 1);
    assert Key(0) !in g.young.Keys;
  }
}
