/** One batch of texts through the answer cache and the detector, while other batches use the cache. */
module DetectBatch {
  import opened Text
  import opened Scan
  import opened SpanCache

  const MAX_REQUEST_BYTES: nat := 4 * 1024 * 1024

  datatype WireSpan = WireSpan(start: nat, end: nat, category: string, confidence: real)

  datatype Answer = Answered(lists: seq<seq<WireSpan>>) | Failed(reason: string)

  datatype Reason =
    | UnresolvedLeaf
    | TooLarge(total: nat)
    | PostFailed(reason: string)
    | WrongCount(got: nat, wanted: nat)
    | NotCovered

  datatype Outcome = Detected(lists: seq<Spans>) | Unavailable(reason: Reason)

  /** Which reported spans are kept; no labels means every label. */
  datatype Settings = Settings(minConfidence: real, labels: set<string>) {
    predicate Keeps(s: WireSpan) {
      s.confidence >= minConfidence && (labels == {} || s.category in labels)
    }

    /** Exactly the reported spans that are sure enough and of an accepted category, without their
        confidence. */
    function FilterSpans(spans: seq<WireSpan>): (r: Spans)
      ensures forall e :: e in r <==>
                exists w :: w in spans && w.confidence >= minConfidence && (labels == {} || w.category in labels)
                            && e == ExternalSpan(w.start, w.end, w.category)
    {
      if spans == [] then []
      else (if Keeps(spans[0]) then [ExternalSpan(spans[0].start, spans[0].end, spans[0].category)] else [])
           + FilterSpans(spans[1..])
    }
  }

  /** Filtering goes through the list in order, span by span. */
  lemma {:induction false} FilterInOrder(c: Settings, a: seq<WireSpan>, b: seq<WireSpan>)
    ensures c.FilterSpans(a + b) == c.FilterSpans(a) + c.FilterSpans(b)
    decreases |a|
  {
    if a == [] {
      assert a + b == b;
    } else {
      assert (a + b)[0] == a[0] && (a + b)[1..] == a[1..] + b;
      FilterInOrder(c, a[1..], b);
    }
  }

  /** A span is kept once, or dropped. */
  lemma {:induction false} FilterOne(c: Settings, w: WireSpan)
    ensures c.FilterSpans([w]) ==
            if w.confidence >= c.minConfidence && (c.labels == {} || w.category in c.labels)
            then [ExternalSpan(w.start, w.end, w.category)] else []
  {
    assert [w][1..] == [];
  }

  /** What a batch meets: the key of a text, the reply to a post, and what other batches do to the
      cache just before this batch's n-th use of it. */
  datatype World = World(keyOf: string -> CacheKey, post: seq<string> -> Answer, others: nat -> seq<Op>)

  // ---------- sizes ----------

  function TotalBytes(texts: seq<string>): nat {
    if texts == [] then 0 else TotalBytes(texts[..|texts| - 1]) + Utf8Len(texts[|texts| - 1])
  }

  function Together(texts: seq<string>): string {
    if texts == [] then "" else Together(texts[..|texts| - 1]) + texts[|texts| - 1]
  }

  lemma {:induction false} Utf8Together(a: string, b: string)
    ensures Utf8Len(a + b) == Utf8Len(a) + Utf8Len(b)
    decreases |a|
  {
    if a == [] {
      assert a + b == b;
    } else {
      assert (a + b)[0] == a[0] && (a + b)[1..] == a[1..] + b;
      Utf8Together(a[1..], b);
    }
  }

  lemma {:induction false} BytesTogether(texts: seq<string>)
    ensures TotalBytes(texts) == Utf8Len(Together(texts))
    decreases |texts|
  {
    if texts != [] {
      BytesTogether(texts[..|texts| - 1]);
      Utf8Together(Together(texts[..|texts| - 1]), texts[|texts| - 1]);
    }
  }

  // ---------- what the cache and the detector promise ----------

  function ApplyAll(g: Generations, ops: seq<Op>): Generations
    decreases |ops|
  {
    if ops == [] then g else ApplyAll(Apply(g, ops[0]), ops[1..])
  }

  /** The list a text should get: the filtered detector answer, nothing for a blank text. */
  function Truth(c: Settings, detect: string -> seq<WireSpan>, text: string): Spans {
    if text == "" then [] else c.FilterSpans(detect(text))
  }

  /** A list kept under a key is right for every text with that key. */
  ghost predicate Right(w: World, c: Settings, detect: string -> seq<WireSpan>, key: CacheKey, spans: Spans) {
    forall text | text != "" && w.keyOf(text) == key :: spans == Truth(c, detect, text)
  }

  ghost predicate RightOp(w: World, c: Settings, detect: string -> seq<WireSpan>, op: Op) {
    op.PutOp? ==> Right(w, c, detect, op.key, op.spans)
  }

  ghost predicate Sound(w: World, c: Settings, detect: string -> seq<WireSpan>, g: Generations) {
    && (forall key | key in g.young :: Right(w, c, detect, key, g.young[key]))
    && (forall key | key in g.aged :: Right(w, c, detect, key, g.aged[key]))
  }

  /** The detector answers each posted text as `detect` does. */
  ghost predicate Functional(w: World, detect: string -> seq<WireSpan>) {
    forall texts: seq<string>, i: nat ::
      w.post(texts).Answered? && |w.post(texts).lists| == |texts| && i < |texts| ==>
        w.post(texts).lists[i] == detect(texts[i])
  }

  /** Texts that share a key share their answer; so it is when no two texts share one. */
  ghost predicate KeysDecide(w: World, c: Settings, detect: string -> seq<WireSpan>) {
    forall a, b :: a != "" && b != "" && w.keyOf(a) == w.keyOf(b) ==> Truth(c, detect, a) == Truth(c, detect, b)
  }

  /** Other batches put only right lists. */
  ghost predicate OthersAreRight(w: World, c: Settings, detect: string -> seq<WireSpan>) {
    forall n: nat, i: nat :: i < |w.others(n)| ==> RightOp(w, c, detect, w.others(n)[i])
  }

  ghost predicate Fair(w: World, c: Settings, detect: string -> seq<WireSpan>) {
    Functional(w, detect) && KeysDecide(w, c, detect) && OthersAreRight(w, c, detect)
  }

  lemma {:induction false} RightOpKeepsSound(w: World, c: Settings, detect: string -> seq<WireSpan>, g: Generations, op: Op)
    requires Sound(w, c, detect, g) && RightOp(w, c, detect, op)
    ensures Sound(w, c, detect, Apply(g, op))
  {
    hide Right;
  }

  lemma {:induction false} RightOpsKeepSound(w: World, c: Settings, detect: string -> seq<WireSpan>, g: Generations, ops: seq<Op>)
    requires Sound(w, c, detect, g)
    requires forall i: nat | i < |ops| :: RightOp(w, c, detect, ops[i])
    ensures Sound(w, c, detect, ApplyAll(g, ops))
    decreases |ops|
  {
    hide Sound, RightOp;
    if ops != [] {
      RightOpKeepsSound(w, c, detect, g, ops[0]);
      RightOpsKeepSound(w, c, detect, Apply(g, ops[0]), ops[1..]);
    }
  }

  // ---------- the protocol as a function of the state ----------

  /** The state after looking the non-blank texts up in order, from the batch's n-th use on. */
  function AfterLookups(w: World, g: Generations, n: nat, texts: seq<string>): Generations
    decreases |texts|
  {
    if texts == [] then g
    else if texts[0] == "" then AfterLookups(w, g, n, texts[1..])
    else AfterLookups(w, Promote(ApplyAll(g, w.others(n)), w.keyOf(texts[0])), n + 1, texts[1..])
  }

  /** The texts these lookups do not find. */
  function Missing(w: World, g: Generations, n: nat, texts: seq<string>): seq<string>
    decreases |texts|
  {
    if texts == [] then []
    else if texts[0] == "" then Missing(w, g, n, texts[1..])
    else
      var h := ApplyAll(g, w.others(n));
      var key := w.keyOf(texts[0]);
      (if Lookup(h, key).Some? then [] else [texts[0]]) + Missing(w, Promote(h, key), n + 1, texts[1..])
  }

  /** How many lookups these texts take. */
  function Lookups(texts: seq<string>): nat {
    if texts == [] then 0 else (if texts[0] == "" then 0 else 1) + Lookups(texts[1..])
  }

  /** The state after putting each list under its text's key. */
  function AfterPuts(w: World, g: Generations, n: nat, texts: seq<string>, lists: seq<Spans>): Generations
    requires |texts| == |lists|
    decreases |texts|
  {
    if texts == [] then g
    else
      AfterPuts(w, Store(ApplyAll(g, w.others(n)), w.keyOf(texts[0]), lists[0]), n + 1, texts[1..], lists[1..])
  }

  function KeysOf(w: World, texts: seq<string>): (keys: seq<CacheKey>)
    ensures |keys| == |texts| && forall i | 0 <= i < |texts| :: keys[i] == w.keyOf(texts[i])
  {
    if texts == [] then [] else KeysOf(w, texts[..|texts| - 1]) + [w.keyOf(texts[|texts| - 1])]
  }

  /** The first text of each key. */
  function FirstOfEachKey(w: World, texts: seq<string>): seq<string> {
    if texts == [] then []
    else
      var before := FirstOfEachKey(w, texts[..|texts| - 1]);
      var text := texts[|texts| - 1];
      if w.keyOf(text) in KeysOf(w, before) then before else before + [text]
  }

  /** The texts a batch asks the detector about: those that two rounds of lookups miss. */
  function Pending(w: World, g: Generations, texts: seq<string>): seq<string> {
    var first := Missing(w, g, 0, texts);
    FirstOfEachKey(w, Missing(w, AfterLookups(w, g, 0, texts), Lookups(texts), first))
  }

  function Filtered(c: Settings, lists: seq<seq<WireSpan>>): seq<Spans> {
    seq(|lists|, i requires 0 <= i < |lists| => c.FilterSpans(lists[i]))
  }

  function Truths(c: Settings, detect: string -> seq<WireSpan>, texts: seq<string>): seq<Spans> {
    seq(|texts|, i requires 0 <= i < |texts| => Truth(c, detect, texts[i]))
  }

  /** What became of the pending texts: nothing to ask, too much to ask, or the detector's reply. */
  function Trouble(w: World, pending: seq<string>): Option<Reason> {
    if pending == [] then None
    else if TotalBytes(pending) > MAX_REQUEST_BYTES then Some(TooLarge(TotalBytes(pending)))
    else
      var answer := w.post(pending);
      if answer.Failed? then Some(PostFailed(answer.reason))
      else if |answer.lists| != |pending| then Some(WrongCount(|answer.lists|, |pending|))
      else None
  }

  /** A batch is without trouble exactly when it has nothing to ask, or asks no more than four mebibytes and is
      answered with one list for each text. */
  lemma {:induction false} NoTroubleExactly(w: World, pending: seq<string>)
    ensures Trouble(w, pending).None? <==>
              || pending == []
              || (Utf8Len(Together(pending)) <= 0x40_0000
                  && match w.post(pending) case Answered(lists) => |lists| == |pending| case Failed(_) => false)
  {
    hide TotalBytes;
    BytesTogether(pending);
  }

  /** The state a batch leaves: two rounds of lookups, then the answered lists put. */
  function AfterBatch(w: World, c: Settings, g: Generations, texts: seq<string>): Generations {
    var first := Missing(w, g, 0, texts);
    var h := AfterLookups(w, AfterLookups(w, g, 0, texts), Lookups(texts), first);
    var pending := Pending(w, g, texts);
    if pending == [] || Trouble(w, pending).Some? then h
    else AfterPuts(w, h, Lookups(texts) + Lookups(first), pending, Filtered(c, w.post(pending).lists))
  }

  // ---------- which texts are posted ----------

  predicate DistinctKeys(w: World, texts: seq<string>) {
    forall i, j | 0 <= i < j < |texts| :: w.keyOf(texts[i]) != w.keyOf(texts[j])
  }

  /** The first texts are some of the texts, one for every key. */
  predicate Represent(w: World, firsts: seq<string>, texts: seq<string>) {
    && (forall i | 0 <= i < |firsts| :: firsts[i] in texts)
    && (forall i | 0 <= i < |texts| :: w.keyOf(texts[i]) in KeysOf(w, firsts))
  }

  lemma {:induction false} EachKeyOnce(w: World, texts: seq<string>)
    ensures Represent(w, FirstOfEachKey(w, texts), texts) && DistinctKeys(w, FirstOfEachKey(w, texts))
    decreases |texts|
  {
    hide KeysOf;
    if texts != [] {
      hide FirstOfEachKey, DistinctKeys, Represent;
      var before, text := texts[..|texts| - 1], texts[|texts| - 1];
      assert texts == before + [text];
      EachKeyOnce(w, before);
      FirstsSnoc(w, before, text);
      OneMoreText(w, FirstOfEachKey(w, before), before, text);
    }
  }

  lemma {:induction false} OneMoreText(w: World, firsts: seq<string>, texts: seq<string>, text: string)
    requires Represent(w, firsts, texts) && DistinctKeys(w, firsts)
    ensures var next := if w.keyOf(text) in KeysOf(w, firsts) then firsts else firsts + [text];
            Represent(w, next, texts + [text]) && DistinctKeys(w, next)
  {
    hide KeysOf;
    KeysSnoc(w, firsts, text);
    if w.keyOf(text) !in KeysOf(w, firsts) {
      KeysAreOf(w, firsts, w.keyOf(text));
    }
  }

  lemma {:induction false} KeysAreOf(w: World, texts: seq<string>, key: CacheKey)
    ensures key in KeysOf(w, texts) <==> exists i :: 0 <= i < |texts| && w.keyOf(texts[i]) == key
  {
    if i :| 0 <= i < |texts| && w.keyOf(texts[i]) == key {
      assert KeysOf(w, texts)[i] == key;
    }
  }

  /** Only texts of the batch are missing, never a blank one. */
  lemma {:induction false} MissingAreGiven(w: World, g: Generations, n: nat, texts: seq<string>)
    ensures forall text :: text in Missing(w, g, n, texts) ==> text in texts && text != ""
    decreases |texts|
  {
    if texts != [] {
      if texts[0] == "" {
        MissingAreGiven(w, g, n, texts[1..]);
      } else {
        MissingAreGiven(w, Promote(ApplyAll(g, w.others(n)), w.keyOf(texts[0])), n + 1, texts[1..]);
      }
    }
  }

  /** Whatever the other batches do, a batch posts texts of its own, none blank, no two with one key. */
  lemma {:induction false} PostsAreDistinct(w: World, g: Generations, texts: seq<string>)
    ensures var pending := Pending(w, g, texts);
            (forall text :: text in pending ==> text in texts && text != "") && DistinctKeys(w, pending)
  {
    var first := Missing(w, g, 0, texts);
    var h := AfterLookups(w, g, 0, texts);
    MissingAreGiven(w, g, 0, texts);
    MissingAreGiven(w, h, Lookups(texts), first);
    EachKeyOnce(w, Missing(w, h, Lookups(texts), first));
  }

  predicate Cached(w: World, g: Generations, text: string) { Lookup(g, w.keyOf(text)).Some? }

  ghost predicate Quiet(w: World) { forall n: nat :: w.others(n) == [] }

  /** Lookups alone find the same keys before and after. */
  lemma {:induction false} QuietLookups(w: World, g: Generations, n: nat, texts: seq<string>)
    requires Quiet(w)
    ensures forall text :: Cached(w, AfterLookups(w, g, n, texts), text) == Cached(w, g, text)
    ensures forall text :: text in Missing(w, g, n, texts) <==> text in texts && text != "" && !Cached(w, g, text)
    decreases |texts|
  {
    if texts != [] {
      assert texts == [texts[0]] + texts[1..];
      if texts[0] == "" {
        QuietLookups(w, g, n, texts[1..]);
      } else {
        var h := Promote(g, w.keyOf(texts[0]));
        assert ApplyAll(g, w.others(n)) == g;
        assert forall text :: Cached(w, h, text) == Cached(w, g, text);
        QuietLookups(w, h, n + 1, texts[1..]);
      }
    }
  }

  /** With nobody else at the cache, the keys posted are exactly those of the non-blank texts it lacks. */
  lemma {:induction false} QuietBatchPostsTheUncached(w: World, g: Generations, texts: seq<string>, text: string)
    requires Quiet(w) && text in texts && text != ""
    ensures w.keyOf(text) in KeysOf(w, Pending(w, g, texts)) <==> !Cached(w, g, text)
  {
    var first := Missing(w, g, 0, texts);
    var h := AfterLookups(w, g, 0, texts);
    var second := Missing(w, h, Lookups(texts), first);
    QuietLookups(w, g, 0, texts);
    QuietLookups(w, h, Lookups(texts), first);
    EachKeyOnce(w, second);
    var pending := Pending(w, g, texts);
    if w.keyOf(text) in KeysOf(w, pending) {
      var i :| 0 <= i < |pending| && KeysOf(w, pending)[i] == w.keyOf(text);
      assert pending[i] in pending;
    }
  }

  lemma {:induction false} FirstsSnoc(w: World, texts: seq<string>, text: string)
    ensures var before := FirstOfEachKey(w, texts);
            FirstOfEachKey(w, texts + [text]) ==
            if w.keyOf(text) in KeysOf(w, before) then before else before + [text]
  {
    assert (texts + [text])[..|texts|] == texts;
  }

  lemma {:induction false} KeysSnoc(w: World, texts: seq<string>, text: string)
    ensures KeysOf(w, texts + [text]) == KeysOf(w, texts) + [w.keyOf(text)]
  {
    assert (texts + [text])[..|texts|] == texts;
  }

  lemma {:induction false} NothingPending(w: World)
    ensures Unresolved([], []) == [] && FirstOfEachKey(w, []) == [] && KeysOf(w, []) == []
  {
  }

  // ---------- why there is a second round ----------

  /** A key is held, and once it is old everything young is among the given keys. */
  predicate Recent(g: Generations, key: CacheKey, since: set<CacheKey>) {
    key in g.young || (key in g.aged && g.young.Keys <= since)
  }

  function KeysOfOps(ops: seq<Op>): set<CacheKey> {
    if ops == [] then {} else {ops[0].key} + KeysOfOps(ops[1..])
  }

  /** The keys used from a round's first lookup to its last, by this batch and by the others in between. */
  function KeysInRound(w: World, n: nat, texts: seq<string>): set<CacheKey>
    decreases |texts|
  {
    if texts == [] then {}
    else if |texts| == 1 then {w.keyOf(texts[0])}
    else {w.keyOf(texts[0])} + KeysOfOps(w.others(n + 1)) + KeysInRound(w, n + 1, texts[1..])
  }

  predicate FewOthers(since: set<CacheKey>, key: CacheKey) { |since - {key}| < CACHE_GENERATION_ENTRIES }

  lemma {:induction false} FewerOthers(a: set<CacheKey>, b: set<CacheKey>, key: CacheKey)
    requires FewOthers(b, key) && a <= b
    ensures FewOthers(a, key)
  {
    SubsetSize(a - {key}, b - {key});
  }

  lemma {:induction false} RecentStays(g: Generations, key: CacheKey, since: set<CacheKey>, op: Op)
    requires Recent(g, key, since - {key}) && FewOthers(since, key)
    ensures Recent(Apply(g, op), key, since + {op.key} - {key})
  {
    assert |g.young| == |g.young.Keys|;
    if key !in g.young {
      SubsetSize(g.young.Keys, since - {key});
    }
  }

  lemma {:induction false} RecentStaysThrough(g: Generations, key: CacheKey, since: set<CacheKey>, ops: seq<Op>)
    requires Recent(g, key, since - {key}) && FewOthers(since + KeysOfOps(ops), key)
    ensures Recent(ApplyAll(g, ops), key, since + KeysOfOps(ops) - {key})
    decreases |ops|
  {
    hide Recent, FewOthers, Apply;
    if ops == [] {
      assert since + KeysOfOps(ops) == since;
    } else {
      FewerOthers(since, since + KeysOfOps(ops), key);
      RecentStays(g, key, since, ops[0]);
      assert since + {ops[0].key} + KeysOfOps(ops[1..]) == since + KeysOfOps(ops);
      RecentStaysThrough(Apply(g, ops[0]), key, since + {ops[0].key}, ops[1..]);
    }
  }

  /** A round finds every text whose key was used recently enough when it began. */
  lemma {:induction false} RoundFinds(w: World, g: Generations, n: nat, texts: seq<string>, key: CacheKey, since: set<CacheKey>)
    requires Recent(ApplyAll(g, w.others(n)), key, since - {key}) && FewOthers(since + KeysInRound(w, n, texts), key)
    requires forall text | text in texts :: text != ""
    ensures forall text | text in Missing(w, g, n, texts) :: w.keyOf(text) != key
    decreases |texts|
  {
    hide FewOthers, ApplyAll, KeysOfOps, Promote, Recent;
    if texts != [] {
      assert texts[0] in texts && forall text | text in texts[1..] :: text in texts;
      var h, own := ApplyAll(g, w.others(n)), w.keyOf(texts[0]);
      RecentIsFound(h, key, since - {key});
      if |texts| > 1 {
        var met := KeysOfOps(w.others(n + 1));
        FewerOthers(since, since + KeysInRound(w, n, texts), key);
        RecentStays(h, key, since, GetOp(own));
        assert since + {own} + met + KeysInRound(w, n + 1, texts[1..]) == since + KeysInRound(w, n, texts);
        FewerOthers(since + {own} + met, since + KeysInRound(w, n, texts), key);
        RecentStaysThrough(Promote(h, own), key, since + {own}, w.others(n + 1));
        RoundFinds(w, Promote(h, own), n + 1, texts[1..], key, since + {own} + met);
      } else {
        NothingMore(w, Promote(h, own), n + 1);
        assert texts[1..] == [];
      }
    }
  }

  lemma {:induction false} NothingMore(w: World, g: Generations, n: nat)
    ensures Missing(w, g, n, []) == []
  {
  }

  lemma {:induction false} RecentIsFound(g: Generations, key: CacheKey, since: set<CacheKey>)
    requires Recent(g, key, since)
    ensures Lookup(g, key).Some?
  {
  }

  lemma {:induction false} ApplyConcat(g: Generations, a: seq<Op>, b: seq<Op>)
    ensures ApplyAll(g, a + b) == ApplyAll(ApplyAll(g, a), b)
    decreases |a|
  {
    hide Apply;
    if a == [] {
      assert a + b == b;
    } else {
      assert (a + b)[0] == a[0] && (a + b)[1..] == a[1..] + b;
      ApplyConcat(Apply(g, a[0]), a[1..], b);
    }
  }

  lemma {:induction false} PutIsRecent(g: Generations, ops: seq<Op>, i: nat, key: CacheKey)
    requires i < |ops| && ops[i].PutOp? && ops[i].key == key && FewOthers(KeysOfOps(ops[i + 1..]), key)
    ensures Recent(ApplyAll(g, ops), key, KeysOfOps(ops[i + 1..]) - {key})
  {
    hide FewOthers, KeysOfOps;
    var before := ApplyAll(g, ops[..i]);
    assert ops == ops[..i] + ([ops[i]] + ops[i + 1..]) && ([ops[i]] + ops[i + 1..])[1..] == ops[i + 1..];
    ApplyConcat(g, ops[..i], [ops[i]] + ops[i + 1..]);
    assert {} + KeysOfOps(ops[i + 1..]) == KeysOfOps(ops[i + 1..]);
    RecentStaysThrough(Apply(before, ops[i]), key, {}, ops[i + 1..]);
  }

  /** What the second round is for. When another batch has put a text's key while this one waited for
      its turn, and no more than a generation of other keys has been used since, this batch does not
      post the text again. */
  lemma {:induction false} SecondRoundSparesThePost(w: World, g: Generations, texts: seq<string>, text: string, i: nat)
    requires var ops := w.others(Lookups(texts));
             && i < |ops| && ops[i].PutOp? && ops[i].key == w.keyOf(text)
             && FewOthers(KeysOfOps(ops[i + 1..]) + KeysInRound(w, Lookups(texts), Missing(w, g, 0, texts)), w.keyOf(text))
    ensures w.keyOf(text) !in KeysOf(w, Pending(w, g, texts))
  {
    hide FewOthers, Recent, ApplyAll, KeysOfOps, KeysInRound, FirstOfEachKey, Missing, AfterLookups, KeysOf;
    var n, key, first, h := Lookups(texts), w.keyOf(text), Missing(w, g, 0, texts), AfterLookups(w, g, 0, texts);
    var since := KeysOfOps(w.others(n)[i + 1..]);
    FewerOthers(since, since + KeysInRound(w, n, first), key);
    PutIsRecent(h, w.others(n), i, key);
    MissingAreGiven(w, g, 0, texts);
    RoundFinds(w, h, n, first, key, since);
    var second := Missing(w, h, n, first);
    EachKeyOnce(w, second);
    KeysAreOf(w, FirstOfEachKey(w, second), key);
  }

  // ---------- slots ----------

  /** The non-blank texts whose slot is still empty. */
  function Unresolved(texts: seq<string>, slots: seq<Option<Spans>>): seq<string>
    requires |texts| == |slots|
  {
    if texts == [] then []
    else (if slots[0].None? then [texts[0]] else []) + Unresolved(texts[1..], slots[1..])
  }

  lemma {:induction false} UnresolvedCons(text: string, slot: Option<Spans>, texts: seq<string>, slots: seq<Option<Spans>>)
    requires |texts| == |slots|
    ensures Unresolved([text] + texts, [slot] + slots) == (if slot.None? then [text] else []) + Unresolved(texts, slots)
  {
    assert ([text] + texts)[1..] == texts && ([slot] + slots)[1..] == slots;
  }

  lemma {:induction false} UnresolvedConcat(a: seq<string>, s: seq<Option<Spans>>, b: seq<string>, t: seq<Option<Spans>>)
    requires |a| == |s| && |b| == |t|
    ensures Unresolved(a + b, s + t) == Unresolved(a, s) + Unresolved(b, t)
    decreases |a|
  {
    hide Unresolved;
    if a == [] {
      assert a + b == b && s + t == t;
      NothingUnresolved();
    } else {
      UnresolvedConcat(a[1..], s[1..], b, t);
      assert a == [a[0]] + a[1..] && s == [s[0]] + s[1..];
      assert a + b == [a[0]] + (a[1..] + b) && s + t == [s[0]] + (s[1..] + t);
      UnresolvedCons(a[0], s[0], a[1..], s[1..]);
      UnresolvedCons(a[0], s[0], a[1..] + b, s[1..] + t);
    }
  }

  lemma {:induction false} NothingUnresolved()
    ensures Unresolved([], []) == []
  {
  }

  lemma {:induction false} UnresolvedSnoc(texts: seq<string>, slots: seq<Option<Spans>>, text: string, slot: Option<Spans>)
    requires |texts| == |slots|
    ensures var before := Unresolved(texts, slots);
            Unresolved(texts + [text], slots + [slot]) == if slot.None? then before + [text] else before
  {
    UnresolvedConcat(texts, slots, [text], [slot]);
    assert Unresolved([text], [slot]) == if slot.None? then [text] else [];
  }

  lemma {:induction false} UnresolvedMembers(texts: seq<string>, slots: seq<Option<Spans>>, i: nat)
    requires |texts| == |slots| && i < |texts| && slots[i].None?
    ensures texts[i] in Unresolved(texts, slots)
  {
    if i > 0 {
      UnresolvedMembers(texts[1..], slots[1..], i - 1);
    }
  }

  lemma {:induction false} NoneUnresolved(texts: seq<string>, slots: seq<Option<Spans>>)
    requires |texts| == |slots| && forall i | 0 <= i < |slots| :: slots[i].Some?
    ensures Unresolved(texts, slots) == []
  {
    if texts != [] {
      NoneUnresolved(texts[1..], slots[1..]);
    }
  }

  lemma {:induction false} AllResolved(texts: seq<string>, slots: seq<Option<Spans>>)
    requires |texts| == |slots| && Unresolved(texts, slots) == []
    ensures forall i | 0 <= i < |slots| :: slots[i].Some?
  {
    forall i | 0 <= i < |slots| ensures slots[i].Some? {
      if slots[i].None? {
        UnresolvedMembers(texts, slots, i);
      }
    }
  }

  ghost predicate SlotsRight(c: Settings, detect: string -> seq<WireSpan>, texts: seq<string>, slots: seq<Option<Spans>>)
    requires |texts| == |slots|
  {
    forall i | 0 <= i < |slots| :: slots[i].Some? ==> slots[i].value == Truth(c, detect, texts[i])
  }

  predicate BlanksAreFilled(texts: seq<string>, slots: seq<Option<Spans>>)
    requires |texts| == |slots|
  {
    forall i | 0 <= i < |texts| :: texts[i] == "" ==> slots[i].Some?
  }

  lemma {:induction false} SlotsRightSnoc(c: Settings, detect: string -> seq<WireSpan>, texts: seq<string>, slots: seq<Option<Spans>>, text: string, slot: Option<Spans>)
    requires |texts| == |slots| && SlotsRight(c, detect, texts, slots)
    requires slot.Some? ==> slot.value == Truth(c, detect, text)
    ensures SlotsRight(c, detect, texts + [text], slots + [slot])
  {
    var all := texts + [text];
    assert forall i | 0 <= i < |texts| :: all[i] == texts[i];
  }

  lemma {:induction false} SlotRight(c: Settings, detect: string -> seq<WireSpan>, texts: seq<string>, slots: seq<Option<Spans>>, i: nat)
    requires i < |texts| == |slots| && SlotsRight(c, detect, texts, slots)
    ensures slots[i].Some? ==> slots[i].value == Truth(c, detect, texts[i])
  {
  }

  /** Part-way through a round of lookups: what is done, and what the rest will do. */
  ghost predicate SoFar(w: World, g: Generations, n: nat, texts: seq<string>, missed: seq<string>, h: Generations, m: nat, rest: seq<string>) {
    && m + Lookups(rest) == n + Lookups(texts)
    && Missing(w, g, n, texts) == missed + Missing(w, h, m, rest)
    && AfterLookups(w, g, n, texts) == AfterLookups(w, h, m, rest)
  }

  lemma {:induction false} SoFarLookup(w: World, g: Generations, n: nat, texts: seq<string>, missed: seq<string>, h: Generations, m: nat, text: string, rest: seq<string>)
    requires SoFar(w, g, n, texts, missed, h, m, [text] + rest) && text != ""
    ensures var met := ApplyAll(h, w.others(m));
            var key := w.keyOf(text);
            SoFar(w, g, n, texts, if Lookup(met, key).Some? then missed else missed + [text], Promote(met, key), m + 1, rest)
  {
    hide Promote, ApplyAll, Lookup, Missing, AfterLookups, Lookups;
    LookupStep(w, h, m, text, rest);
    var met := ApplyAll(h, w.others(m));
    var later := Missing(w, Promote(met, w.keyOf(text)), m + 1, rest);
    assert missed + ([text] + later) == (missed + [text]) + later;
  }

  lemma {:induction false} SoFarBlank(w: World, g: Generations, n: nat, texts: seq<string>, missed: seq<string>, h: Generations, m: nat, rest: seq<string>)
    requires SoFar(w, g, n, texts, missed, h, m, [""] + rest)
    ensures SoFar(w, g, n, texts, missed, h, m, rest)
  {
    hide Promote, ApplyAll, Lookup, Missing, AfterLookups, Lookups;
    BlankStep(w, h, m, rest);
  }

  lemma {:induction false} SoFarStart(w: World, g: Generations, n: nat, texts: seq<string>)
    ensures SoFar(w, g, n, texts, [], g, n, texts)
  {
  }

  lemma {:induction false} SoFarEnd(w: World, g: Generations, n: nat, texts: seq<string>, missed: seq<string>, h: Generations, m: nat)
    requires SoFar(w, g, n, texts, missed, h, m, [])
    ensures m == n + Lookups(texts) && Missing(w, g, n, texts) == missed && AfterLookups(w, g, n, texts) == h
  {
    EmptyLists(w, h, m);
  }

  lemma {:induction false} SlotsRightNil(c: Settings, detect: string -> seq<WireSpan>)
    ensures SlotsRight(c, detect, [], [])
  {
  }

  lemma {:induction false} EmptyLists(w: World, g: Generations, n: nat)
    ensures AfterLookups(w, g, n, []) == g && Missing(w, g, n, []) == [] && Lookups([]) == 0 && Unresolved([], []) == []
  {
  }

  lemma {:induction false} UnresolvedHead(texts: seq<string>, slots: seq<Option<Spans>>, i: nat)
    requires i < |texts| == |slots|
    ensures var rest := Unresolved(texts[i + 1..], slots[i + 1..]);
            Unresolved(texts[i..], slots[i..]) == if slots[i].None? then [texts[i]] + rest else rest
  {
    assert texts[i..][1..] == texts[i + 1..] && slots[i..][1..] == slots[i + 1..];
  }

  lemma {:induction false} AfterNoPuts(w: World, g: Generations, n: nat)
    ensures AfterPuts(w, g, n, [], []) == g
  {
  }

  /** One put, split off the rest. */
  lemma {:induction false} PutStep(w: World, g: Generations, n: nat, texts: seq<string>, lists: seq<Spans>, i: nat)
    requires i < |texts| == |lists|
    ensures AfterPuts(w, g, n, texts[i..], lists[i..])
         == AfterPuts(w, Store(ApplyAll(g, w.others(n)), w.keyOf(texts[i]), lists[i]), n + 1, texts[i + 1..], lists[i + 1..])
  {
    assert texts[i..][1..] == texts[i + 1..] && lists[i..][1..] == lists[i + 1..];
  }

  /** One lookup of a non-blank text, split off the rest. */
  lemma {:induction false} LookupStep(w: World, g: Generations, n: nat, text: string, rest: seq<string>)
    requires text != ""
    ensures var h := ApplyAll(g, w.others(n));
            var key := w.keyOf(text);
            && AfterLookups(w, g, n, [text] + rest) == AfterLookups(w, Promote(h, key), n + 1, rest)
            && Missing(w, g, n, [text] + rest)
            == (var missed := Missing(w, Promote(h, key), n + 1, rest);
                if Lookup(h, key).Some? then missed else [text] + missed)
            && Lookups([text] + rest) == 1 + Lookups(rest)
  {
    assert ([text] + rest)[1..] == rest;
  }

  lemma {:induction false} BlankStep(w: World, g: Generations, n: nat, rest: seq<string>)
    ensures AfterLookups(w, g, n, [""] + rest) == AfterLookups(w, g, n, rest)
    ensures Missing(w, g, n, [""] + rest) == Missing(w, g, n, rest)
    ensures Lookups([""] + rest) == Lookups(rest)
  {
    assert ([""] + rest)[1..] == rest;
  }

  /** The span lists once every slot is filled. */
  method CollectResolved(slots: seq<Option<Spans>>) returns (lists: Option<seq<Spans>>)
    ensures lists.Some? <==> forall i | 0 <= i < |slots| :: slots[i].Some?
    ensures lists.Some? ==> |lists.value| == |slots| && forall i | 0 <= i < |slots| :: slots[i] == Some(lists.value[i])
  {
    var found: seq<Spans> := [];
    for i := 0 to |slots|
      invariant |found| == i && forall j | 0 <= j < i :: slots[j] == Some(found[j])
    {
      if slots[i].None? {
        return None;
      }
      found := found + [slots[i].value];
    }
    return Some(found);
  }

  /** The texts still without an answer, one for each key. */
  method CollectPending(w: World, texts: seq<string>, slots: seq<Option<Spans>>)
    returns (pending: seq<string>, keys: seq<CacheKey>)
    requires |texts| == |slots|
    ensures pending == FirstOfEachKey(w, Unresolved(texts, slots)) && keys == KeysOf(w, pending)
  {
    hide Unresolved, FirstOfEachKey, KeysOf;
    pending, keys := [], [];
    NothingPending(w);
    for i := 0 to |texts|
      invariant pending == FirstOfEachKey(w, Unresolved(texts[..i], slots[..i])) && keys == KeysOf(w, pending)
    {
      assert texts[..i + 1] == texts[..i] + [texts[i]] && slots[..i + 1] == slots[..i] + [slots[i]];
      UnresolvedSnoc(texts[..i], slots[..i], texts[i], slots[i]);
      if slots[i].None? {
        var key := w.keyOf(texts[i]);
        FirstsSnoc(w, Unresolved(texts[..i], slots[..i]), texts[i]);
        if key !in keys {
          KeysSnoc(w, pending, texts[i]);
          keys := keys + [key];
          pending := pending + [texts[i]];
        }
      }
    }
    assert texts[..|texts|] == texts && slots[..|slots|] == slots;
  }

  lemma {:induction false} SoundLookup(w: World, c: Settings, detect: string -> seq<WireSpan>, g: Generations, text: string)
    requires Sound(w, c, detect, g) && text != ""
    ensures var found := Lookup(g, w.keyOf(text)); found.Some? ==> found.value == Truth(c, detect, text)
  {
  }

  /** The lists are the detector's own for these texts, none of them blank. */
  predicate Answers(detect: string -> seq<WireSpan>, texts: seq<string>, lists: seq<seq<WireSpan>>)
    requires |texts| == |lists|
  {
    forall i | 0 <= i < |texts| :: texts[i] != "" && lists[i] == detect(texts[i])
  }

  ghost predicate Good(w: World, c: Settings, detect: string -> seq<WireSpan>, g: Generations) {
    Fair(w, c, detect) && Sound(w, c, detect, g)
  }

  /** What a batch relies on is what it does: the only lists it puts are right ones, whatever it met. */
  lemma {:induction false} OwnPutsAreRight(w: World, c: Settings, detect: string -> seq<WireSpan>, text: string)
    requires KeysDecide(w, c, detect) && text != ""
    ensures RightOp(w, c, detect, PutOp(w.keyOf(text), c.FilterSpans(detect(text))))
  {
    assert Truth(c, detect, text) == c.FilterSpans(detect(text));
  }

  /** Filing the true answer of a text keeps the cache right. */
  lemma {:induction false} PutIsRight(w: World, c: Settings, detect: string -> seq<WireSpan>, g: Generations, text: string)
    requires Good(w, c, detect, g) && text != ""
    ensures Good(w, c, detect, Store(g, w.keyOf(text), c.FilterSpans(detect(text))))
  {
    var op := PutOp(w.keyOf(text), c.FilterSpans(detect(text)));
    OwnPutsAreRight(w, c, detect, text);
    RightOpKeepsSound(w, c, detect, g, op);
  }

  /** Every answered list, filtered, under its text's key. */
  predicate Filed(w: World, c: Settings, pending: seq<string>, lists: seq<seq<WireSpan>>, filed: map<CacheKey, Spans>)
    requires |pending| == |lists|
  {
    forall i | 0 <= i < |pending| ::
      w.keyOf(pending[i]) in filed && filed[w.keyOf(pending[i])] == c.FilterSpans(lists[i])
  }

  /** Each empty slot has taken the list filed under its text's key, if there is one. */
  predicate FilledFrom(w: World, texts: seq<string>, slots: seq<Option<Spans>>, filed: map<CacheKey, Spans>, filled: seq<Option<Spans>>)
    requires |texts| == |slots| == |filled|
  {
    forall i | 0 <= i < |texts| ::
      filled[i] == if slots[i].Some? then slots[i]
                   else if w.keyOf(texts[i]) in filed then Some(filed[w.keyOf(texts[i])])
                   else None
  }

  lemma {:induction false} SlotsGiveTruths(c: Settings, detect: string -> seq<WireSpan>, texts: seq<string>, slots: seq<Option<Spans>>, lists: seq<Spans>)
    requires |texts| == |slots| == |lists| && SlotsRight(c, detect, texts, slots)
    requires forall i | 0 <= i < |slots| :: slots[i] == Some(lists[i])
    ensures lists == Truths(c, detect, texts)
  {
    forall i | 0 <= i < |lists| ensures lists[i] == Truths(c, detect, texts)[i] {
      assert slots[i] == Some(lists[i]);
    }
  }

  /** When the first round finds everything, there is nothing to ask. */
  lemma {:induction false} NothingMissed(w: World, c: Settings, g: Generations, texts: seq<string>)
    requires Missing(w, g, 0, texts) == []
    ensures Pending(w, g, texts) == [] && AfterBatch(w, c, g, texts) == AfterLookups(w, g, 0, texts)
  {
    EmptyLists(w, AfterLookups(w, g, 0, texts), Lookups(texts));
    NothingPending(w);
  }

  lemma {:induction false} NothingLeft(w: World, texts: seq<string>, slots: seq<Option<Spans>>)
    requires |texts| == |slots| && FirstOfEachKey(w, Unresolved(texts, slots)) == []
    ensures forall i | 0 <= i < |slots| :: slots[i].Some?
  {
    var left := Unresolved(texts, slots);
    assert left != [] ==> left[0] in left;
    EachKeyOnce(w, left);
    NothingPending(w);
    AllResolved(texts, slots);
  }

  /** A usable answer to the pending texts is the detector's own for each of them. */
  lemma {:induction false} AnswersAreTrue(w: World, c: Settings, detect: string -> seq<WireSpan>, g: Generations, pending: seq<string>)
    requires Good(w, c, detect, g)
    requires forall text :: text in pending ==> text != ""
    requires w.post(pending).Answered? && |w.post(pending).lists| == |pending|
    ensures Answers(detect, pending, w.post(pending).lists)
  {
    forall i | 0 <= i < |pending| ensures pending[i] != "" && w.post(pending).lists[i] == detect(pending[i]) {
      assert pending[i] in pending;
    }
  }

  /** The pending text that stands for an unresolved one. */
  lemma {:induction false} StandIn(w: World, texts: seq<string>, slots: seq<Option<Spans>>, i: nat) returns (j: nat)
    requires i < |texts| == |slots| && slots[i].None?
    ensures var pending := FirstOfEachKey(w, Unresolved(texts, slots));
            j < |pending| && w.keyOf(pending[j]) == w.keyOf(texts[i])
  {
    var left := Unresolved(texts, slots);
    UnresolvedMembers(texts, slots, i);
    EachKeyOnce(w, left);
    var keys := KeysOf(w, FirstOfEachKey(w, left));
    j :| 0 <= j < |keys| && keys[j] == w.keyOf(texts[i]);
  }

  lemma {:induction false} FilledCovers(
    w: World, c: Settings, texts: seq<string>, slots: seq<Option<Spans>>, pending: seq<string>, lists: seq<seq<WireSpan>>,
    filed: map<CacheKey, Spans>, filled: seq<Option<Spans>>)
    requires |texts| == |slots| == |filled| && |pending| == |lists|
    requires pending == FirstOfEachKey(w, Unresolved(texts, slots))
    requires Filed(w, c, pending, lists, filed) && FilledFrom(w, texts, slots, filed, filled)
    ensures forall i | 0 <= i < |filled| :: filled[i].Some?
  {
    forall i | 0 <= i < |filled| ensures filled[i].Some? {
      if slots[i].None? {
        var j := StandIn(w, texts, slots, i);
      }
    }
  }

  lemma {:induction false} FilledAreRight(
    w: World, c: Settings, detect: string -> seq<WireSpan>, g: Generations, texts: seq<string>, slots: seq<Option<Spans>>,
    pending: seq<string>, lists: seq<seq<WireSpan>>, filed: map<CacheKey, Spans>, filled: seq<Option<Spans>>)
    requires |texts| == |slots| == |filled| && |pending| == |lists| && Good(w, c, detect, g)
    requires pending == FirstOfEachKey(w, Unresolved(texts, slots)) && BlanksAreFilled(texts, slots)
    requires SlotsRight(c, detect, texts, slots) && Answers(detect, pending, lists)
    requires Filed(w, c, pending, lists, filed) && FilledFrom(w, texts, slots, filed, filled)
    ensures SlotsRight(c, detect, texts, filled)
  {
    hide Functional, OthersAreRight, Sound, FirstOfEachKey, Unresolved;
    forall i | 0 <= i < |filled| && filled[i].Some? ensures filled[i].value == Truth(c, detect, texts[i]) {
      if slots[i].None? {
        var j := StandIn(w, texts, slots, i);
        assert Truth(c, detect, pending[j]) == Truth(c, detect, texts[i]);
      }
    }
  }

  class NerClient {
    const settings: Settings
    const cache: Cache

    constructor (settings: Settings)
      ensures this.settings == settings && fresh(cache) && cache.State() == EMPTY
    {
      this.settings := settings;
      this.cache := new Cache();
    }

    /** What other batches do to the cache before this batch's n-th use of it. */
    method Meanwhile(w: World, n: nat, ghost detect: string -> seq<WireSpan>)
      modifies cache
      ensures cache.State() == ApplyAll(old(cache.State()), w.others(n))
      ensures old(Good(w, settings, detect, cache.State())) ==> Good(w, settings, detect, cache.State())
    {
      var ops := w.others(n);
      for i := 0 to |ops|
        invariant ApplyAll(cache.State(), ops[i..]) == ApplyAll(old(cache.State()), ops)
      {
        assert ops[i..][1..] == ops[i + 1..];
        match ops[i]
        case GetOp(key) => var _ := cache.Get(key);
        case PutOp(key, spans) => cache.Put(key, spans);
      }
      if old(Good(w, settings, detect, cache.State())) {
        RightOpsKeepSound(w, settings, detect, old(cache.State()), ops);
      }
    }

    method LookUp(w: World, n: nat, text: string, ghost detect: string -> seq<WireSpan>) returns (found: Option<Spans>)
      requires text != ""
      modifies cache
      ensures var g := ApplyAll(old(cache.State()), w.others(n));
              && found == Lookup(g, w.keyOf(text)) && cache.State() == Promote(g, w.keyOf(text))
      ensures old(Good(w, settings, detect, cache.State())) ==> Good(w, settings, detect, cache.State())
      ensures old(Good(w, settings, detect, cache.State())) && found.Some? ==> found.value == Truth(settings, detect, text)
    {
      Meanwhile(w, n, detect);
      ghost var g := cache.State();
      if Good(w, settings, detect, cache.State()) {
        SoundLookup(w, settings, detect, g, text);
        RightOpKeepsSound(w, settings, detect, g, GetOp(w.keyOf(text)));
      }
      found := cache.Get(w.keyOf(text));
    }

    method FirstLookups(w: World, texts: seq<string>, ghost detect: string -> seq<WireSpan>)
      returns (slots: seq<Option<Spans>>, n: nat)
      modifies cache
      ensures |slots| == |texts| && BlanksAreFilled(texts, slots) && n == Lookups(texts)
      ensures Unresolved(texts, slots) == Missing(w, old(cache.State()), 0, texts)
      ensures cache.State() == AfterLookups(w, old(cache.State()), 0, texts)
      ensures old(Good(w, settings, detect, cache.State())) ==> Good(w, settings, detect, cache.State()) && SlotsRight(settings, detect, texts, slots)
    {
      hide Good, Promote, ApplyAll, Lookup, Missing, AfterLookups, Lookups, Unresolved, SoFar, SlotsRight, Cache.State;
      slots, n := [], 0;
      ghost var g := cache.State();
      SoFarStart(w, g, 0, texts);
      EmptyLists(w, g, 0);
      SlotsRightNil(settings, detect);
      assert texts[0..] == texts;
      for i := 0 to |texts|
        invariant |slots| == i && BlanksAreFilled(texts[..i], slots)
        invariant SoFar(w, g, 0, texts, Unresolved(texts[..i], slots), cache.State(), n, texts[i..])
        invariant old(Good(w, settings, detect, cache.State())) ==> Good(w, settings, detect, cache.State()) && SlotsRight(settings, detect, texts[..i], slots)
      {
        ghost var rest := texts[i + 1..];
        assert texts[i..] == [texts[i]] + rest && texts[..i + 1] == texts[..i] + [texts[i]];
        var slot := Some([]);
        if texts[i] == "" {
          SoFarBlank(w, g, 0, texts, Unresolved(texts[..i], slots), cache.State(), n, rest);
        } else {
          SoFarLookup(w, g, 0, texts, Unresolved(texts[..i], slots), cache.State(), n, texts[i], rest);
          slot := LookUp(w, n, texts[i], detect);
          n := n + 1;
        }
        UnresolvedSnoc(texts[..i], slots, texts[i], slot);
        if old(Good(w, settings, detect, cache.State())) {
          SlotsRightSnoc(settings, detect, texts[..i], slots, texts[i], slot);
        }
        slots := slots + [slot];
      }
      assert texts[..|texts|] == texts && texts[|texts|..] == [];
      SoFarEnd(w, g, 0, texts, Unresolved(texts, slots), cache.State(), n);
    }

    method SecondLookups(w: World, n: nat, texts: seq<string>, slots: seq<Option<Spans>>, ghost detect: string -> seq<WireSpan>)
      returns (filled: seq<Option<Spans>>, m: nat)
      requires |slots| == |texts| && BlanksAreFilled(texts, slots)
      modifies cache
      ensures |filled| == |texts| && BlanksAreFilled(texts, filled) && m == n + Lookups(Unresolved(texts, slots))
      ensures Unresolved(texts, filled) == Missing(w, old(cache.State()), n, Unresolved(texts, slots))
      ensures cache.State() == AfterLookups(w, old(cache.State()), n, Unresolved(texts, slots))
      ensures old(Good(w, settings, detect, cache.State())) && SlotsRight(settings, detect, texts, slots) ==>
                Good(w, settings, detect, cache.State()) && SlotsRight(settings, detect, texts, filled)
    {
      hide Good, Promote, ApplyAll, Lookup, Missing, AfterLookups, Lookups, Unresolved, SoFar, SlotsRight, Cache.State;
      filled, m := [], n;
      ghost var g, first := cache.State(), Unresolved(texts, slots);
      ghost var good := Good(w, settings, detect, cache.State()) && SlotsRight(settings, detect, texts, slots);
      SoFarStart(w, g, n, first);
      EmptyLists(w, g, n);
      SlotsRightNil(settings, detect);
      assert texts[0..] == texts && slots[0..] == slots;
      for i := 0 to |texts|
        invariant |filled| == i && BlanksAreFilled(texts[..i], filled)
        invariant SoFar(w, g, n, first, Unresolved(texts[..i], filled), cache.State(), m, Unresolved(texts[i..], slots[i..]))
        invariant good ==> Good(w, settings, detect, cache.State()) && SlotsRight(settings, detect, texts[..i], filled)
      {
        ghost var rest := Unresolved(texts[i + 1..], slots[i + 1..]);
        assert texts[..i + 1] == texts[..i] + [texts[i]];
        UnresolvedHead(texts, slots, i);
        if good {
          SlotRight(settings, detect, texts, slots, i);
        }
        var slot := slots[i];
        if slot.None? {
          SoFarLookup(w, g, n, first, Unresolved(texts[..i], filled), cache.State(), m, texts[i], rest);
          slot := LookUp(w, m, texts[i], detect);
          m := m + 1;
        }
        UnresolvedSnoc(texts[..i], filled, texts[i], slot);
        if good {
          SlotsRightSnoc(settings, detect, texts[..i], filled, texts[i], slot);
        }
        filled := filled + [slot];
      }
      assert texts[..|texts|] == texts && texts[|texts|..] == [] && slots[|texts|..] == [];
      SoFarEnd(w, g, n, first, Unresolved(texts, filled), cache.State(), m);
    }

    /** Files each answered list, filtered, under its key. */
    method Fill(w: World, n: nat, pending: seq<string>, lists: seq<seq<WireSpan>>, ghost detect: string -> seq<WireSpan>)
      returns (filed: map<CacheKey, Spans>)
      requires |pending| == |lists|
      requires DistinctKeys(w, pending)
      modifies cache
      ensures Filed(w, settings, pending, lists, filed)
      ensures cache.State() == AfterPuts(w, old(cache.State()), n, pending, Filtered(settings, lists))
      ensures old(Good(w, settings, detect, cache.State())) && Answers(detect, pending, lists) ==> Good(w, settings, detect, cache.State())
    {
      hide Good, Store, ApplyAll, AfterPuts, Cache.State;
      filed := map[];
      ghost var g, all := cache.State(), Filtered(settings, lists);
      ghost var good := Good(w, settings, detect, cache.State()) && Answers(detect, pending, lists);
      assert pending[0..] == pending && all[0..] == all;
      for i := 0 to |pending|
        invariant forall j | 0 <= j < i :: w.keyOf(pending[j]) in filed && filed[w.keyOf(pending[j])] == all[j]
        invariant AfterPuts(w, g, n, pending, all) == AfterPuts(w, cache.State(), n + i, pending[i..], all[i..])
        invariant good ==> Good(w, settings, detect, cache.State())
      {
        PutStep(w, cache.State(), n + i, pending, all, i);
        Meanwhile(w, n + i, detect);
        if good {
          PutIsRight(w, settings, detect, cache.State(), pending[i]);
        }
        var key, spans := w.keyOf(pending[i]), settings.FilterSpans(lists[i]);
        assert all[i] == spans;
        cache.Put(key, spans);
        filed := filed[key := spans];
      }
      AfterNoPuts(w, cache.State(), n + |pending|);
    }

    /** The lists still missing, taken from what the detector just answered. */
    method FillSlots(w: World, texts: seq<string>, slots: seq<Option<Spans>>, filed: map<CacheKey, Spans>)
      returns (filled: seq<Option<Spans>>)
      requires |texts| == |slots|
      ensures |filled| == |texts| && FilledFrom(w, texts, slots, filed, filled)
    {
      filled := [];
      for i := 0 to |texts|
        invariant |filled| == i
        invariant FilledFrom(w, texts[..i], slots[..i], filed, filled)
      {
        if slots[i].None? && w.keyOf(texts[i]) in filed {
          filled := filled + [Some(filed[w.keyOf(texts[i])])];
        } else {
          filled := filled + [slots[i]];
        }
      }
    }

    /** A batch of texts: one list for each, or the reason there is none. Whatever other batches do to
        the cache in between, the texts asked about and the outcome are these; and when they and the
        detector play fair, every list is the filtered answer for its own text. */
    method DetectBatch(w: World, texts: seq<string>, ghost detect: string -> seq<WireSpan>)
      returns (r: Outcome, posted: seq<string>)
      modifies cache
      ensures var pending := Pending(w, old(cache.State()), texts);
              var trouble := Trouble(w, pending);
              && (trouble.Some? ==> r == Unavailable(trouble.value))
              && (trouble.None? ==> r.Detected? && |r.lists| == |texts|)
              && posted == if trouble.Some? && trouble.value.TooLarge? then [] else pending
      ensures r.Unavailable? ==> !r.reason.UnresolvedLeaf? && !r.reason.NotCovered?
      ensures cache.State() == AfterBatch(w, settings, old(cache.State()), texts)
      ensures old(Good(w, settings, detect, cache.State())) ==> Good(w, settings, detect, cache.State())
      ensures old(Good(w, settings, detect, cache.State())) && r.Detected? ==> r.lists == Truths(settings, detect, texts)
    {
      hide Good, Missing, AfterLookups, AfterPuts, Lookups, Unresolved, FirstOfEachKey, KeysOf, SlotsRight, Answers;
      hide FilledFrom, Filed, TotalBytes, Truths, Filtered, Cache.State;
      ghost var g := cache.State();
      ghost var good := Good(w, settings, detect, g);
      var slots, n := FirstLookups(w, texts, detect);
      var lists := CollectResolved(slots);
      if lists.Some? {
        NoneUnresolved(texts, slots);
        NothingMissed(w, settings, g, texts);
        if good {
          SlotsGiveTruths(settings, detect, texts, slots, lists.value);
        }
        return Detected(lists.value), [];
      }
      slots, n := SecondLookups(w, n, texts, slots, detect);
      var pending, keys := CollectPending(w, texts, slots);
      if pending == [] {
        NothingLeft(w, texts, slots);
        lists := CollectResolved(slots);
        if good {
          SlotsGiveTruths(settings, detect, texts, slots, lists.value);
        }
        return if lists.Some? then Detected(lists.value) else Unavailable(UnresolvedLeaf), [];
      }
      if TotalBytes(pending) > MAX_REQUEST_BYTES {
        return Unavailable(TooLarge(TotalBytes(pending))), [];
      }
      assert pending == Pending(w, g, texts);
      var answer := w.post(pending);
      match answer {
        case Failed(reason) =>
          return Unavailable(PostFailed(reason)), pending;
        case Answered(answered) =>
          if |answered| != |pending| {
            return Unavailable(WrongCount(|answered|, |pending|)), pending;
          }
          PostsAreDistinct(w, g, texts);
          if good {
            AnswersAreTrue(w, settings, detect, g, pending);
          }
          var filed := Fill(w, n, pending, answered, detect);
          var filled := FillSlots(w, texts, slots, filed);
          FilledCovers(w, settings, texts, slots, pending, answered, filed, filled);
          if good {
            FilledAreRight(w, settings, detect, g, texts, slots, pending, answered, filed, filled);
          }
          lists := CollectResolved(filled);
          if good {
            SlotsGiveTruths(settings, detect, texts, filled, lists.value);
          }
          return if lists.Some? then Detected(lists.value) else Unavailable(NotCovered), pending;
      }
    }
  }
}
