/** The request as the proxy scans it: `system` and every message's content, with the detector's
    answers lined up with the string leaves across all of them. */
module RequestScan {
  import opened Text
  import opened Sealing
  import opened Keywords
  import opened Scan
  import opened JsonScan
  import Segments
  import Detokenize

  // ---------- one subtree ----------

  /** All or nothing: the lists must be as many as the leaves. */
  function ScanJsonWithExternal(k: Sealer, rules: seq<Rule>, v: Json, lists: SpanLists): Result<Json, ScanError> {
    if |lists| != |Leaves(v)| then Err(ExternalSpanCount(|Leaves(v)|, |lists|))
    else
      match Traverse(LeafScan(k, rules, Some(lists)), v, 0)
      case Err(e) => Err(e)
      case Ok((w, _)) => Ok(w)
  }

  /** The scan without a detector: every leaf by the rules alone. */
  function ScanJson(k: Sealer, rules: seq<Rule>, v: Json): Result<Json, ScanError> {
    match Traverse(LeafScan(k, rules, None), v, 0)
    case Err(e) => Err(e)
    case Ok((w, _)) => Ok(w)
  }

  function ScanSubtree(k: Sealer, rules: seq<Rule>, v: Json, taken: Option<SpanLists>): Result<Json, ScanError> {
    if taken.None? then ScanJson(k, rules, v) else ScanJsonWithExternal(k, rules, v, taken.value)
  }

  /** As many lists off the front of the queue as it still holds. */
  function Taken(queue: Option<SpanLists>, wanted: nat): Option<SpanLists> {
    if queue.None? then None else Some(if wanted <= |queue.value| then queue.value[..wanted] else queue.value)
  }

  function Left(queue: Option<SpanLists>, wanted: nat): Option<SpanLists> {
    if queue.None? then None else Some(if wanted <= |queue.value| then queue.value[wanted..] else [])
  }

  /** Masks every keyword in every leaf of a tree. */
  function MaskKeywords(v: Json, ks: seq<Keyword>): Json
    decreases |ks|
  {
    if ks == [] then v
    else
      match Traverse(LeafMask(ks[0]), v, 0)
      case Err(_) => v
      case Ok((w, _)) => MaskKeywords(w, ks[1..])
  }

  function MaskText(s: string, ks: seq<Keyword>): string
    decreases |ks|
  {
    if ks == [] then s else MaskText(Substitute(ks[0].Masking(), s), ks[1..])
  }

  lemma {:induction false} MaskingMasksLeaves(v: Json, ks: seq<Keyword>)
    ensures Shape(MaskKeywords(v, ks)) == Shape(v) && |Leaves(MaskKeywords(v, ks))| == |Leaves(v)|
    ensures forall j | 0 <= j < |Leaves(v)| :: Leaves(MaskKeywords(v, ks))[j] == Leaf(MaskText(Leaves(v)[j].text, ks), Leaves(v)[j].key)
    decreases |ks|
  {
    hide LeavesUnder, Traverse, Shape, Substitute;
    if ks != [] {
      TraverseMaps(LeafMask(ks[0]), v, None, 0);
      MaskSucceeds(ks[0], v);
      var w := Traverse(LeafMask(ks[0]), v, 0).value.0;
      MaskingMasksLeaves(w, ks[1..]);
      forall j | 0 <= j < |Leaves(v)| ensures Leaves(w)[j] == Leaf(Substitute(ks[0].Masking(), Leaves(v)[j].text), Leaves(v)[j].key) {
        assert LeafMask(ks[0])(0 + j, Leaves(v)[j].text) == Ok(Leaves(w)[j].text);
      }
    }
  }

  /** The keywords act one after the other, every one of them. */
  lemma {:induction false} MaskTextInTurn(s: string, a: seq<Keyword>, b: seq<Keyword>)
    ensures MaskText(s, a + b) == MaskText(MaskText(s, a), b)
    ensures |a| == 1 ==> MaskText(s, a) == Substitute(Swap(a[0].matchText, a[0].alias, a[0].caseSensitive, Detokenize.Verbatim), s)
    ensures a == [] ==> MaskText(s, a) == s
    decreases |a|
  {
    hide Substitute;
    if a == [] {
      assert a + b == b;
    } else {
      assert (a + b)[0] == a[0] && (a + b)[1..] == a[1..] + b;
      MaskTextInTurn(Substitute(a[0].Masking(), s), a[1..], b);
    }
  }

  lemma {:induction false} MaskSucceeds(kw: Keyword, v: Json)
    ensures Traverse(LeafMask(kw), v, 0).Ok?
  {
    hide LeavesUnder, Traverse, Shape;
    TraverseMaps(LeafMask(kw), v, None, 0);
  }

  // ---------- the scanned roots ----------

  datatype Root = System | Content(index: nat)

  function Find(fields: seq<Field>, key: string): Option<Json> {
    if fields == [] then None
    else if fields[0].key == key then Some(fields[0].value)
    else Find(fields[1..], key)
  }

  function Replace(fields: seq<Field>, key: string, v: Json): (r: seq<Field>)
    ensures |r| == |fields|
  {
    if fields == [] then []
    else if fields[0].key == key then [Field(key, v)] + fields[1..]
    else [fields[0]] + Replace(fields[1..], key, v)
  }

  function Get(v: Json, key: string): Option<Json> {
    if v.Obj? then Find(v.fields, key) else None
  }

  function With(v: Json, key: string, w: Json): Json {
    if v.Obj? then Obj(Replace(v.fields, key, w)) else v
  }

  lemma {:induction false} FindReplaced(fields: seq<Field>, key: string, w: Json, other: string)
    ensures Find(fields, key).Some? ==> Find(Replace(fields, key, w), key) == Some(w)
    ensures other != key ==> Find(Replace(fields, key, w), other) == Find(fields, other)
  {
    if fields != [] {
      if fields[0].key != key {
        FindReplaced(fields[1..], key, w, other);
      }
      var r := Replace(fields, key, w);
      assert r[1..] == if fields[0].key == key then fields[1..] else Replace(fields[1..], key, w);
    }
  }

  function Messages(body: Json): seq<Json> {
    match Get(body, "messages")
    case Some(Arr(items)) => items
    case _ => []
  }

  function Subtree(body: Json, root: Root): Option<Json> {
    match root
    case System => Get(body, "system")
    case Content(i) => if i < |Messages(body)| then Get(Messages(body)[i], "content") else None
  }

  function Put(body: Json, root: Root, w: Json): Json {
    match root
    case System => With(body, "system", w)
    case Content(i) =>
      if i < |Messages(body)| then
        With(body, "messages", Arr(Messages(body)[i := With(Messages(body)[i], "content", w)]))
      else body
  }

  lemma {:induction false} PutThenSubtree(body: Json, root: Root, w: Json, other: Root)
    requires Subtree(body, root).Some?
    ensures Subtree(Put(body, root, w), other) == if other == root then Some(w) else Subtree(body, other)
    ensures |Messages(Put(body, root, w))| == |Messages(body)|
  {
    match root
    case System =>
      FindReplaced(body.fields, "system", w, "messages");
    case Content(i) =>
      var ms := Messages(body);
      var message := ms[i];
      FindReplaced(message.fields, "content", w, "content");
      FindReplaced(body.fields, "messages", Arr(ms[i := With(message, "content", w)]), "system");
  }

  function ContentRoots(messages: seq<Json>, from: nat): seq<Root>
    requires from <= |messages|
    decreases |messages| - from
  {
    if from == |messages| then []
    else (if Get(messages[from], "content").Some? then [Content(from)] else []) + ContentRoots(messages, from + 1)
  }

  /** The scanned subtrees, in order: `system`, then each message's content. */
  function ScanRoots(body: Json): seq<Root> {
    (if Get(body, "system").Some? then [System] else []) + ContentRoots(Messages(body), 0)
  }

  predicate Distinct(roots: seq<Root>) {
    forall i, j | 0 <= i < j < |roots| :: roots[i] != roots[j]
  }

  lemma {:induction false} ContentRootsAre(messages: seq<Json>, from: nat)
    requires from <= |messages|
    ensures Distinct(ContentRoots(messages, from))
    ensures forall r | r in ContentRoots(messages, from) ::
              r.Content? && from <= r.index < |messages| && Get(messages[r.index], "content").Some?
    decreases |messages| - from
  {
    if from < |messages| {
      ContentRootsAre(messages, from + 1);
    }
  }

  lemma {:induction false} RootsAreThere(body: Json)
    ensures Distinct(ScanRoots(body))
    ensures forall r | r in ScanRoots(body) :: Subtree(body, r).Some?
  {
    ContentRootsAre(Messages(body), 0);
    var content := ContentRoots(Messages(body), 0);
    var roots := ScanRoots(body);
    var n := |roots| - |content|;
    forall i, j | 0 <= i < j < |roots| ensures roots[i] != roots[j] {
      assert roots[j] == content[j - n] && (i >= n ==> roots[i] == content[i - n]);
      assert content[j - n] in content;
    }
  }

  // ---------- the request ----------

  /** Every leaf under some roots, in scan order. */
  function LeavesAt(body: Json, roots: seq<Root>): seq<Leaf> {
    if roots == [] then []
    else (match Subtree(body, roots[0]) case None => [] case Some(t) => Leaves(t)) + LeavesAt(body, roots[1..])
  }

  predicate NonProse(key: string) {
    key in {"type", "id", "tool_use_id", "media_type", "data", "signature", "url", "file_id"}
  }

  /** What the detector is shown of a leaf: nothing of `system` and of leaves that are not prose. */
  function Prose(root: Root, leaf: Leaf): string {
    if root.System? || (leaf.key.Some? && NonProse(leaf.key.value)) then "" else leaf.text
  }

  function ProseOf(root: Root, leaves: seq<Leaf>): (r: seq<string>)
    ensures |r| == |leaves|
  {
    seq(|leaves|, i requires 0 <= i < |leaves| => Prose(root, leaves[i]))
  }

  function CollectAt(body: Json, roots: seq<Root>): seq<string> {
    if roots == [] then []
    else (match Subtree(body, roots[0]) case None => [] case Some(t) => ProseOf(roots[0], Leaves(t))) + CollectAt(body, roots[1..])
  }

  /** One text for every leaf of the request. */
  function CollectScanLeaves(body: Json): seq<string> {
    CollectAt(body, ScanRoots(body))
  }

  /** Scans and masks the roots one after the other, taking each root's lists off the queue. */
  function ScanAt(k: Sealer, rules: seq<Rule>, ks: seq<Keyword>, body: Json, roots: seq<Root>, queue: Option<SpanLists>): Result<Json, ScanError>
    decreases |roots|
  {
    if roots == [] then Ok(body)
    else
      match Subtree(body, roots[0])
      case None => ScanAt(k, rules, ks, body, roots[1..], queue)
      case Some(t) =>
        var wanted := |Leaves(t)|;
        match ScanSubtree(k, rules, t, Taken(queue, wanted))
        case Err(e) => Err(e)
        case Ok(scanned) => ScanAt(k, rules, ks, Put(body, roots[0], MaskKeywords(scanned, ks)), roots[1..], Left(queue, wanted))
  }

  function ScanRequest(k: Sealer, rules: seq<Rule>, ks: seq<Keyword>, body: Json, lists: Option<SpanLists>): Result<Json, ScanError> {
    ScanAt(k, rules, ks, body, ScanRoots(body), lists)
  }

  // ---------- what is scanned, read off the body ----------

  function LeavesOfKey(v: Json, key: string): seq<Leaf> {
    match Get(v, key)
    case None => []
    case Some(t) => Leaves(t)
  }

  function ContentLeaves(messages: seq<Json>): seq<Leaf> {
    if messages == [] then [] else LeavesOfKey(messages[0], "content") + ContentLeaves(messages[1..])
  }

  /** Every string leaf that a request must have scanned: those of `system`, then those of each message's
      `content`, in order. */
  function RequestLeaves(body: Json): seq<Leaf> {
    LeavesOfKey(body, "system") + ContentLeaves(Messages(body))
  }

  lemma {:induction false} LeavesAtConcat(body: Json, a: seq<Root>, b: seq<Root>)
    ensures LeavesAt(body, a + b) == LeavesAt(body, a) + LeavesAt(body, b)
    decreases |a|
  {
    hide LeavesUnder, Subtree;
    if a == [] {
      assert a + b == b;
    } else {
      assert (a + b)[0] == a[0] && (a + b)[1..] == a[1..] + b;
      LeavesAtConcat(body, a[1..], b);
    }
  }

  lemma {:induction false} OneRootLeaves(body: Json, root: Root)
    ensures LeavesAt(body, [root]) == match Subtree(body, root) case None => [] case Some(t) => Leaves(t)
  {
    hide LeavesUnder, Subtree;
    assert [root][1..] == [];
    var leaves := match Subtree(body, root) case None => [] case Some(t) => Leaves(t);
    assert leaves + [] == leaves;
  }

  lemma {:induction false} ContentLeavesAre(body: Json, from: nat)
    requires from <= |Messages(body)|
    ensures LeavesAt(body, ContentRoots(Messages(body), from)) == ContentLeaves(Messages(body)[from..])
    decreases |Messages(body)| - from
  {
    hide LeavesUnder, Get, Messages;
    var ms := Messages(body);
    if from < |ms| {
      ContentLeavesAre(body, from + 1);
      var first := if Get(ms[from], "content").Some? then [Content(from)] else [];
      LeavesAtConcat(body, first, ContentRoots(ms, from + 1));
      OneRootLeaves(body, Content(from));
      assert ms[from..][0] == ms[from] && ms[from..][1..] == ms[from + 1..];
    }
  }

  /** The scanned roots hold exactly the leaves that must be scanned, in that order. */
  lemma {:induction false} RootsHoldAllLeaves(body: Json)
    ensures LeavesAt(body, ScanRoots(body)) == RequestLeaves(body)
  {
    hide LeavesUnder, Get, Messages;
    var system := if Get(body, "system").Some? then [System] else [];
    LeavesAtConcat(body, system, ContentRoots(Messages(body), 0));
    OneRootLeaves(body, System);
    ContentLeavesAre(body, 0);
    assert Messages(body)[0..] == Messages(body);
  }

  lemma {:induction false} ContentRootsExactly(messages: seq<Json>, from: nat)
    requires from <= |messages|
    ensures forall i: nat :: Content(i) in ContentRoots(messages, from) <==> from <= i < |messages| && Get(messages[i], "content").Some?
    ensures System !in ContentRoots(messages, from)
    ensures forall i, j | 0 <= i < j < |ContentRoots(messages, from)| ::
              ContentRoots(messages, from)[i].Content? && ContentRoots(messages, from)[j].Content?
              && ContentRoots(messages, from)[i].index < ContentRoots(messages, from)[j].index
    decreases |messages| - from
  {
    hide Get;
    if from < |messages| {
      ContentRootsExactly(messages, from + 1);
      ContentRootsAre(messages, from + 1);
      var rest, roots := ContentRoots(messages, from + 1), ContentRoots(messages, from);
      var n := |roots| - |rest|;
      forall i, j | 0 <= i < j < |roots|
        ensures roots[i].Content? && roots[j].Content? && roots[i].index < roots[j].index
      {
        assert roots[j] == rest[j - n] && rest[j - n] in rest;
        assert i >= n ==> roots[i] == rest[i - n];
      }
    }
  }

  predicate RootsInOrder(roots: seq<Root>) {
    forall i, j | 0 <= i < j < |roots| :: roots[j].Content? && (roots[i].Content? ==> roots[i].index < roots[j].index)
  }

  lemma {:induction false} SystemFirst(content: seq<Root>)
    requires RootsInOrder(content) && forall r | r in content :: r.Content?
    ensures RootsInOrder([System] + content)
  {
    var roots := [System] + content;
    forall i, j | 0 <= i < j < |roots| ensures roots[j].Content? && (roots[i].Content? ==> roots[i].index < roots[j].index) {
      assert roots[j] == content[j - 1] && content[j - 1] in content;
      assert i > 0 ==> roots[i] == content[i - 1];
    }
  }

  lemma {:induction false} ContentInOrder(messages: seq<Json>)
    ensures RootsInOrder(ContentRoots(messages, 0)) && forall r | r in ContentRoots(messages, 0) :: r.Content?
  {
    hide Get, ContentRoots;
    ContentRootsExactly(messages, 0);
    ContentRootsAre(messages, 0);
  }

  lemma {:induction false} NoSystem(content: seq<Root>)
    ensures [] + content == content
  {
  }

  /** A subtree is scanned exactly when it is there: `system` first, then the messages in order. */
  lemma {:induction false} RootsExactly(body: Json)
    ensures forall r :: r in ScanRoots(body) <==> Subtree(body, r).Some?
    ensures RootsInOrder(ScanRoots(body))
  {
    hide Get, Messages, ContentRoots, RootsInOrder, Subtree;
    var content := ContentRoots(Messages(body), 0);
    ContentInOrder(Messages(body));
    SystemFirst(content);
    NoSystem(content);
    forall r ensures r in ScanRoots(body) <==> Subtree(body, r).Some? {
      RootIsScanned(body, r, content);
    }
  }

  lemma {:induction false} RootIsScanned(body: Json, r: Root, content: seq<Root>)
    requires content == ContentRoots(Messages(body), 0)
    ensures r in ScanRoots(body) <==> Subtree(body, r).Some?
  {
    hide Get, Messages, ContentRoots;
    ContentRootsExactly(Messages(body), 0);
    assert r in ScanRoots(body) <==> (r == System && Get(body, "system").Some?) || r in content;
  }

  lemma {:induction false} SameContentRoots(a: seq<Json>, b: seq<Json>, from: nat)
    requires |a| == |b| && from <= |a|
    requires forall i | 0 <= i < |a| :: Get(a[i], "content").Some? <==> Get(b[i], "content").Some?
    ensures ContentRoots(a, from) == ContentRoots(b, from)
    decreases |a| - from
  {
    if from < |a| {
      SameContentRoots(a, b, from + 1);
    }
  }

  lemma {:induction false} SameRoots(a: Json, b: Json)
    requires |Messages(a)| == |Messages(b)| && forall r :: Subtree(a, r).Some? <==> Subtree(b, r).Some?
    ensures ScanRoots(a) == ScanRoots(b)
  {
    hide Get, Messages;
    assert Subtree(a, System).Some? <==> Subtree(b, System).Some?;
    forall i | 0 <= i < |Messages(a)|
      ensures Get(Messages(a)[i], "content").Some? <==> Get(Messages(b)[i], "content").Some?
    {
      assert Subtree(a, Content(i)).Some? <==> Subtree(b, Content(i)).Some?;
    }
    SameContentRoots(Messages(a), Messages(b), 0);
  }

  /** A scan leaves the roots where they are. */
  lemma {:induction false} RootsStay(k: Sealer, rules: seq<Rule>, ks: seq<Keyword>, body: Json, roots: seq<Root>, queue: Option<SpanLists>)
    requires ScanAt(k, rules, ks, body, roots, queue).Ok?
    ensures ScanRoots(ScanAt(k, rules, ks, body, roots, queue).value) == ScanRoots(body)
    decreases |roots|
  {
    hide LeavesUnder, Subtree, Put, ScanSubtree, MaskKeywords, ScanRoots;
    if roots != [] {
      var t := Subtree(body, roots[0]);
      if t.None? {
        RootsStay(k, rules, ks, body, roots[1..], queue);
      } else {
        var wanted := |Leaves(t.value)|;
        var w := MaskKeywords(ScanSubtree(k, rules, t.value, Taken(queue, wanted)).value, ks);
        var next := Put(body, roots[0], w);
        forall r ensures Subtree(body, r).Some? <==> Subtree(next, r).Some? {
          PutThenSubtree(body, roots[0], w, r);
        }
        PutThenSubtree(body, roots[0], w, roots[0]);
        SameRoots(body, next);
        RootsStay(k, rules, ks, next, roots[1..], Left(queue, wanted));
      }
    }
  }

  // ---------- what the detector is shown ----------

  lemma {:induction false} CollectConcat(body: Json, a: seq<Root>, b: seq<Root>)
    ensures CollectAt(body, a + b) == CollectAt(body, a) + CollectAt(body, b)
    decreases |a|
  {
    hide LeavesUnder, Subtree, Prose;
    if a == [] {
      assert a + b == b;
    } else {
      assert (a + b)[0] == a[0] && (a + b)[1..] == a[1..] + b;
      CollectConcat(body, a[1..], b);
    }
  }

  /** What of a leaf of a message is shown: nothing of protocol fields and of encoded data. */
  function ShownOf(leaf: Leaf): string {
    match leaf.key
    case None => leaf.text
    case Some(key) =>
      if key == "type" || key == "id" || key == "tool_use_id" || key == "media_type" || key == "data" || key == "signature"
         || key == "url" || key == "file_id" then "" else leaf.text
  }

  lemma {:induction false} RootsShow(body: Json, roots: seq<Root>)
    requires forall r | r in roots :: r.Content?
    ensures |CollectAt(body, roots)| == |LeavesAt(body, roots)|
    ensures forall j | 0 <= j < |LeavesAt(body, roots)| :: CollectAt(body, roots)[j] == ShownOf(LeavesAt(body, roots)[j])
    decreases |roots|
  {
    hide LeavesUnder, Subtree;
    if roots != [] {
      assert roots[0] in roots && forall r | r in roots[1..] :: r in roots;
      RootsShow(body, roots[1..]);
    }
  }

  /** The detector is shown one text for each leaf: a blank one for `system`, for protocol fields and for
      encoded data, and the leaf's own text otherwise. */
  lemma {:induction false} DetectorSees(body: Json)
    ensures var leaves, shown := RequestLeaves(body), CollectScanLeaves(body);
            && |shown| == |leaves|
            && forall j | 0 <= j < |leaves| ::
                 shown[j] == if j < |LeavesOfKey(body, "system")| then "" else ShownOf(leaves[j])
  {
    hide LeavesUnder, Get, Messages, ShownOf, LeavesAt, CollectAt, ContentRoots, LeavesOfKey, ContentLeaves;
    var system := if Get(body, "system").Some? then [System] else [];
    var content := ContentRoots(Messages(body), 0);
    CollectConcat(body, system, content);
    ContentLeavesAre(body, 0);
    assert Messages(body)[0..] == Messages(body);
    ContentRootsAre(Messages(body), 0);
    RootsShow(body, content);
    SystemIsBlank(body, system);
    ShownTogether(CollectAt(body, system), CollectAt(body, content), LeavesOfKey(body, "system"), LeavesAt(body, content));
  }

  lemma {:induction false} ShownTogether(a: seq<string>, b: seq<string>, x: seq<Leaf>, y: seq<Leaf>)
    requires |a| == |x| && |b| == |y|
    requires (forall j | 0 <= j < |a| :: a[j] == "") && forall j | 0 <= j < |b| :: b[j] == ShownOf(y[j])
    ensures forall j | 0 <= j < |x + y| :: (a + b)[j] == if j < |x| then "" else ShownOf((x + y)[j])
  {
    hide ShownOf;
  }

  lemma {:induction false} SystemIsBlank(body: Json, roots: seq<Root>)
    requires roots == if Get(body, "system").Some? then [System] else []
    ensures |CollectAt(body, roots)| == |LeavesOfKey(body, "system")| == |LeavesAt(body, roots)|
    ensures forall j | 0 <= j < |CollectAt(body, roots)| :: CollectAt(body, roots)[j] == ""
  {
    hide LeavesUnder;
    OneRootLeaves(body, System);
    assert roots != [] ==> roots[1..] == [];
  }

  // ---------- alignment ----------

  lemma {:induction false} CollectCounts(body: Json, roots: seq<Root>)
    ensures |CollectAt(body, roots)| == |LeavesAt(body, roots)|
  {
    hide LeavesUnder, Subtree, Prose;
    if roots != [] {
      CollectCounts(body, roots[1..]);
    }
  }

  /** A sealed and masked leaf. */
  predicate Done(k: Sealer, rules: seq<Rule>, ks: seq<Keyword>, before: Leaf, spans: seq<ExternalSpan>, after: Leaf) {
    var scanned := ScanText(k, rules, before.text, spans);
    scanned.Ok? && after == Leaf(MaskText(scanned.value, ks), before.key)
  }

  lemma {:induction false} ScanTextFailsToSeal(k: Sealer, rules: seq<Rule>, text: string, spans: seq<ExternalSpan>)
    ensures ScanText(k, rules, text, spans).Err? ==> ScanText(k, rules, text, spans).error.SealFailed?
  {
    hide Normalize, ObserveOnly, Segments.MaskedSegments, IsValidRuleId;
    var masked := Segments.MaskedSegments(text);
    RulesFailToSeal(k, rules, masked);
    var r := ApplyRules(k, rules, masked);
    NormalizeIsOrdered(text, spans);
    if r.Ok? {
      ExternalFailsToSeal(k, r.value, Normalize(text, spans), ObserveOnly(rules));
    }
  }

  lemma {:induction false} CarveFailsToSeal(k: Sealer, text: string, origin: nat, hits: seq<Hit>, last: nat)
    requires InOrder(hits, last, |text|)
    ensures Carve(k, text, origin, hits, last).Err? ==> Carve(k, text, origin, hits, last).error.SealFailed?
    decreases |hits|
  {
    if hits != [] {
      CarveFailsToSeal(k, text, origin, hits[1..], hits[0].end);
    }
  }

  lemma {:induction false} RuleFailsToSeal(k: Sealer, rule: Rule, segments: seq<Segments.Segment>)
    ensures ApplyRule(k, rule, segments).Err? ==> ApplyRule(k, rule, segments).error.SealFailed?
  {
    hide Carve, RuleHits, InOrder;
    if segments != [] {
      RuleFailsToSeal(k, rule, segments[1..]);
      if segments[0].Plain? {
        RuleHitsInOrder(rule, segments[0].text);
        CarveFailsToSeal(k, segments[0].text, segments[0].origin, RuleHits(rule, segments[0].text), 0);
      }
    }
  }

  lemma {:induction false} RulesFailToSeal(k: Sealer, rules: seq<Rule>, segments: seq<Segments.Segment>)
    ensures ApplyRules(k, rules, segments).Err? ==> ApplyRules(k, rules, segments).error.SealFailed?
    decreases |rules|
  {
    hide ApplyRule;
    if |rules| != 0 {
      RuleFailsToSeal(k, rules[0], segments);
      var r := ApplyRule(k, rules[0], segments);
      if r.Ok? {
        RulesFailToSeal(k, rules[1..], r.value);
      }
    }
  }

  lemma {:induction false} ExternalFailsToSeal(k: Sealer, segments: seq<Segments.Segment>, spans: seq<ExternalSpan>, observe: set<string>)
    requires forall s | s in spans :: s.start <= s.end
    ensures ApplyExternal(k, segments, spans, observe).Err? ==> ApplyExternal(k, segments, spans, observe).error.SealFailed?
  {
    hide Carve, ExternalHits, InOrder;
    if segments != [] {
      ExternalFailsToSeal(k, segments[1..], spans, observe);
      if segments[0].Plain? {
        CarveFailsToSeal(k, segments[0].text, segments[0].origin, ExternalHits(|segments[0].text|, segments[0].origin, spans, observe, 0), 0);
      }
    }
  }

  lemma {:induction false} LeafScanUsesList(k: Sealer, rules: seq<Rule>, lists: SpanLists, j: nat, text: string)
    requires j < |lists|
    ensures LeafScan(k, rules, Some(lists))(j, text) == ScanText(k, rules, text, lists[j])
  {
    hide ScanText;
    assert ListFor(Some(lists), j) == lists[j];
  }

  /** One root: its leaves are done, each with its own list; a count that fits is never refused. */
  lemma {:induction false} RootIsDone(k: Sealer, rules: seq<Rule>, ks: seq<Keyword>, t: Json, lists: SpanLists)
    requires |lists| == |Leaves(t)|
    ensures var r := ScanJsonWithExternal(k, rules, t, lists);
            && (r.Ok? ==>
                  var after := MaskKeywords(r.value, ks);
                  && Shape(after) == Shape(t) && |Leaves(after)| == |Leaves(t)|
                  && forall j | 0 <= j < |lists| :: Done(k, rules, ks, Leaves(t)[j], lists[j], Leaves(after)[j]))
            && (r.Err? ==> r.error.SealFailed?)
  {
    hide LeavesUnder, Traverse, Shape, ScanText, MaskText;
    var f := LeafScan(k, rules, Some(lists));
    TraverseMaps(f, t, None, 0);
    var r := Traverse(f, t, 0);
    if r.Ok? {
      var w := r.value.0;
      MaskingMasksLeaves(w, ks);
      forall j | 0 <= j < |lists| ensures Done(k, rules, ks, Leaves(t)[j], lists[j], Leaves(MaskKeywords(w, ks))[j]) {
        assert f(0 + j, Leaves(t)[j].text) == Ok(Leaves(w)[j].text);
        LeafScanUsesList(k, rules, lists, j, Leaves(t)[j].text);
      }
    } else {
      var j :| 0 <= j < |Leaves(t)| && f(0 + j, Leaves(t)[j].text) == Err(r.error);
      LeafScanUsesList(k, rules, lists, j, Leaves(t)[j].text);
      ScanTextFailsToSeal(k, rules, Leaves(t)[j].text, lists[j]);
    }
  }

  lemma {:induction false} LeavesElsewhere(body: Json, root: Root, w: Json, roots: seq<Root>)
    requires Subtree(body, root).Some? && root !in roots
    ensures LeavesAt(Put(body, root, w), roots) == LeavesAt(body, roots)
  {
    hide LeavesUnder, Subtree, Put;
    if roots != [] {
      PutThenSubtree(body, root, w, roots[0]);
      LeavesElsewhere(body, root, w, roots[1..]);
    }
  }

  /** What a scan of some roots leaves elsewhere is untouched. */
  lemma {:induction false} ScanTouchesOnlyRoots(k: Sealer, rules: seq<Rule>, ks: seq<Keyword>, body: Json, roots: seq<Root>, queue: Option<SpanLists>, other: Root)
    requires ScanAt(k, rules, ks, body, roots, queue).Ok? && other !in roots
    ensures Subtree(ScanAt(k, rules, ks, body, roots, queue).value, other) == Subtree(body, other)
    decreases |roots|
  {
    hide LeavesUnder, Subtree, Put, ScanSubtree, MaskKeywords;
    if roots != [] {
      var t := Subtree(body, roots[0]);
      if t.None? {
        ScanTouchesOnlyRoots(k, rules, ks, body, roots[1..], queue, other);
      } else {
        var wanted := |Leaves(t.value)|;
        var w := MaskKeywords(ScanSubtree(k, rules, t.value, Taken(queue, wanted)).value, ks);
        PutThenSubtree(body, roots[0], w, other);
        ScanTouchesOnlyRoots(k, rules, ks, Put(body, roots[0], w), roots[1..], Left(queue, wanted), other);
      }
    }
  }

  /** Leaf alignment over a list of roots. */
  lemma {:induction false} RootsAlign(k: Sealer, rules: seq<Rule>, ks: seq<Keyword>, body: Json, roots: seq<Root>, queue: SpanLists)
    requires Distinct(roots) && (forall r | r in roots :: Subtree(body, r).Some?)
    requires |LeavesAt(body, roots)| <= |queue|
    ensures var r := ScanAt(k, rules, ks, body, roots, Some(queue));
            && (r.Ok? ==>
                  && |LeavesAt(r.value, roots)| == |LeavesAt(body, roots)|
                  && (forall j | 0 <= j < |LeavesAt(body, roots)| ::
                        Done(k, rules, ks, LeavesAt(body, roots)[j], queue[j], LeavesAt(r.value, roots)[j]))
                  && forall root | root in roots ::
                       Subtree(r.value, root).Some? && Shape(Subtree(r.value, root).value) == Shape(Subtree(body, root).value))
            && (r.Err? ==> r.error.SealFailed?)
    decreases |roots|
  {
    hide LeavesUnder, Subtree, Put, ScanJsonWithExternal, MaskKeywords, Done, Shape;
    if roots != [] {
      var root, rest := roots[0], roots[1..];
      assert root in roots;
      assert forall i | 0 <= i < |rest| :: rest[i] == roots[i + 1];
      var t := Subtree(body, root).value;
      var n := |Leaves(t)|;
      RootIsDone(k, rules, ks, t, queue[..n]);
      var first := ScanJsonWithExternal(k, rules, t, queue[..n]);
      if first.Ok? {
        var w := MaskKeywords(first.value, ks);
        var next := Put(body, root, w);
        forall r | r in rest ensures Subtree(next, r) == Subtree(body, r) {
          PutThenSubtree(body, root, w, r);
        }
        PutThenSubtree(body, root, w, root);
        LeavesElsewhere(body, root, w, rest);
        RootsAlign(k, rules, ks, next, rest, queue[n..]);
        var done := ScanAt(k, rules, ks, next, rest, Some(queue[n..]));
        if done.Ok? {
          ScanTouchesOnlyRoots(k, rules, ks, next, rest, Some(queue[n..]), root);
          AlignBoth(k, rules, ks, Leaves(t), Leaves(w), LeavesAt(body, rest), LeavesAt(done.value, rest), queue, n);
          forall r | r in roots
            ensures Subtree(done.value, r).Some? && Shape(Subtree(done.value, r).value) == Shape(Subtree(body, r).value)
          {
            assert r == root || r in rest;
          }
        }
      }
    }
  }

  lemma {:induction false} AlignBoth(k: Sealer, rules: seq<Rule>, ks: seq<Keyword>, a: seq<Leaf>, a': seq<Leaf>, b: seq<Leaf>, b': seq<Leaf>,
                  queue: SpanLists, n: nat)
    requires n == |a| == |a'| && |b| == |b'| && n + |b| <= |queue|
    requires forall j | 0 <= j < n :: Done(k, rules, ks, a[j], queue[..n][j], a'[j])
    requires forall j | 0 <= j < |b| :: Done(k, rules, ks, b[j], queue[n..][j], b'[j])
    ensures forall j | 0 <= j < |a + b| :: Done(k, rules, ks, (a + b)[j], queue[j], (a' + b')[j])
  {
    hide Done;
    forall j | 0 <= j < |a + b| ensures Done(k, rules, ks, (a + b)[j], queue[j], (a' + b')[j]) {
      if j < n {
        assert Done(k, rules, ks, a[j], queue[..n][j], a'[j]);
      } else {
        assert Done(k, rules, ks, b[j - n], queue[n..][j - n], b'[j - n]);
      }
    }
  }

  // ---------- what is left alone ----------

  /** The body with the subtrees of some roots taken out. */
  function Without(body: Json, roots: seq<Root>): Json
    decreases |roots|
  {
    if roots == [] then body else Without(Put(body, roots[0], Null), roots[1..])
  }

  lemma {:induction false} ReplaceTwice(fields: seq<Field>, key: string, v: Json, w: Json)
    ensures Replace(Replace(fields, key, v), key, w) == Replace(fields, key, w)
  {
    if fields != [] {
      var r := Replace(fields, key, v);
      if fields[0].key == key {
        assert r[1..] == fields[1..];
      } else {
        assert r[1..] == Replace(fields[1..], key, v);
        ReplaceTwice(fields[1..], key, v, w);
      }
    }
  }

  lemma {:induction false} ReplaceCommutes(fields: seq<Field>, key: string, v: Json, other: string, w: Json)
    requires key != other
    ensures Replace(Replace(fields, key, v), other, w) == Replace(Replace(fields, other, w), key, v)
  {
    if fields != [] {
      var a, b := Replace(fields, key, v), Replace(fields, other, w);
      assert a[1..] == if fields[0].key == key then fields[1..] else Replace(fields[1..], key, v);
      assert b[1..] == if fields[0].key == other then fields[1..] else Replace(fields[1..], other, w);
      if fields[0].key != key && fields[0].key != other {
        ReplaceCommutes(fields[1..], key, v, other, w);
      }
    }
  }

  lemma {:induction false} WithTwice(v: Json, key: string, w: Json, x: Json)
    ensures With(With(v, key, w), key, x) == With(v, key, x)
  {
    if v.Obj? {
      ReplaceTwice(v.fields, key, w, x);
    }
  }

  lemma {:induction false} WithCommutes(v: Json, key: string, w: Json, other: string, x: Json)
    requires key != other
    ensures With(With(v, key, w), other, x) == With(With(v, other, x), key, w)
  {
    if v.Obj? {
      ReplaceCommutes(v.fields, key, w, other, x);
    }
  }

  /** A message's content put into the body. */
  lemma {:induction false} PutContent(body: Json, i: nat, w: Json)
    requires i < |Messages(body)|
    ensures Messages(Put(body, Content(i), w)) == Messages(body)[i := With(Messages(body)[i], "content", w)]
  {
    hide Replace;
    FindReplaced(body.fields, "messages", Arr(Messages(body)[i := With(Messages(body)[i], "content", w)]), "");
  }

  lemma {:induction false} PutSystem(body: Json, w: Json)
    ensures Messages(Put(body, System, w)) == Messages(body)
  {
    hide Replace;
    if body.Obj? {
      FindReplaced(body.fields, "system", w, "messages");
    }
  }

  lemma {:induction false} PutTwice(body: Json, root: Root, v: Json, w: Json)
    ensures Put(Put(body, root, v), root, w) == Put(body, root, w)
  {
    hide With, Messages;
    match root
    case System => WithTwice(body, "system", v, w);
    case Content(i) =>
      if i < |Messages(body)| {
        var ms := Messages(body);
        PutContent(body, i, v);
        WithTwice(ms[i], "content", v, w);
        var one, two := ms[i := With(ms[i], "content", v)], ms[i := With(ms[i], "content", w)];
        assert one[i := With(ms[i], "content", w)] == two;
        WithTwice(body, "messages", Arr(one), Arr(two));
      }
  }

  lemma {:induction false} PutCommutes(body: Json, root: Root, v: Json, other: Root, w: Json)
    requires root != other
    ensures Put(Put(body, root, v), other, w) == Put(Put(body, other, w), root, v)
  {
    hide With, Messages;
    if root.System? {
      SystemCommutes(body, v, other.index, w);
    } else if other.System? {
      SystemCommutes(body, w, root.index, v);
    } else {
      ContentsCommute(body, root.index, v, other.index, w);
    }
  }

  lemma {:induction false} SystemCommutes(body: Json, v: Json, i: nat, w: Json)
    ensures Put(Put(body, System, v), Content(i), w) == Put(Put(body, Content(i), w), System, v)
  {
    hide With, Messages;
    PutSystem(body, v);
    if i < |Messages(body)| {
      WithCommutes(body, "system", v, "messages", Arr(Messages(body)[i := With(Messages(body)[i], "content", w)]));
    }
  }

  lemma {:induction false} ContentsCommute(body: Json, i: nat, v: Json, j: nat, w: Json)
    requires i != j
    ensures Put(Put(body, Content(i), v), Content(j), w) == Put(Put(body, Content(j), w), Content(i), v)
  {
    hide With, Messages;
    var ms := Messages(body);
    if i < |ms| && j < |ms| {
      PutContent(body, i, v);
      PutContent(body, j, w);
      var a, b := ms[i := With(ms[i], "content", v)], ms[j := With(ms[j], "content", w)];
      assert a[j := With(ms[j], "content", w)] == b[i := With(ms[i], "content", v)];
      WithTwice(body, "messages", Arr(a), Arr(a[j := With(ms[j], "content", w)]));
      WithTwice(body, "messages", Arr(b), Arr(b[i := With(ms[i], "content", v)]));
    } else if i < |ms| {
      PutContent(body, i, v);
    } else if j < |ms| {
      PutContent(body, j, w);
    }
  }

  lemma {:induction false} WithoutCommutes(body: Json, root: Root, w: Json, roots: seq<Root>)
    requires root !in roots
    ensures Without(Put(body, root, w), roots) == Put(Without(body, roots), root, w)
    decreases |roots|
  {
    hide Put;
    if roots != [] {
      PutCommutes(body, root, w, roots[0], Null);
      WithoutCommutes(Put(body, roots[0], Null), root, w, roots[1..]);
    }
  }

  /** A scan leaves everything but its subtrees as it was. */
  lemma {:induction false} RestIsUntouched(k: Sealer, rules: seq<Rule>, ks: seq<Keyword>, body: Json, roots: seq<Root>, queue: Option<SpanLists>)
    requires Distinct(roots) && ScanAt(k, rules, ks, body, roots, queue).Ok?
    ensures Without(ScanAt(k, rules, ks, body, roots, queue).value, roots) == Without(body, roots)
    decreases |roots|
  {
    hide LeavesUnder, Subtree, Put, ScanSubtree, MaskKeywords;
    if roots != [] {
      var root, rest := roots[0], roots[1..];
      assert forall i | 0 <= i < |rest| :: rest[i] == roots[i + 1];
      var t := Subtree(body, root);
      var wanted := if t.None? then 0 else |Leaves(t.value)|;
      var next := if t.None? then body else Put(body, root, MaskKeywords(ScanSubtree(k, rules, t.value, Taken(queue, wanted)).value, ks));
      var left := if t.None? then queue else Left(queue, wanted);
      var done := ScanAt(k, rules, ks, next, rest, left).value;
      RestIsUntouched(k, rules, ks, next, rest, left);
      WithoutCommutes(done, root, Null, rest);
      WithoutCommutes(next, root, Null, rest);
      if t.Some? {
        PutTwice(body, root, MaskKeywords(ScanSubtree(k, rules, t.value, Taken(queue, wanted)).value, ks), Null);
      }
    }
  }

  // ---------- the shape of the whole body ----------

  lemma {:induction false} ReplaceKeepsShape(fields: seq<Field>, key: string, w: Json)
    requires Find(fields, key).Some? && Shape(w) == Shape(Find(fields, key).value)
    ensures ShapeOfFields(Replace(fields, key, w)) == ShapeOfFields(fields)
  {
    hide Shape;
    var r := Replace(fields, key, w);
    assert r[1..] == if fields[0].key == key then fields[1..] else Replace(fields[1..], key, w);
    if fields[0].key != key {
      ReplaceKeepsShape(fields[1..], key, w);
    }
  }

  lemma {:induction false} WithKeepsShape(v: Json, key: string, w: Json)
    requires Get(v, key).Some? && Shape(w) == Shape(Get(v, key).value)
    ensures Shape(With(v, key, w)) == Shape(v)
  {
    hide Replace, Find;
    ReplaceKeepsShape(v.fields, key, w);
  }

  lemma {:induction false} UpdateKeepsShape(items: seq<Json>, i: nat, w: Json)
    requires i < |items| && Shape(w) == Shape(items[i])
    ensures ShapeOfItems(items[i := w]) == ShapeOfItems(items)
  {
    hide Shape;
    if i == 0 {
      assert items[i := w][1..] == items[1..];
    } else {
      assert items[i := w][1..] == items[1..][i - 1 := w];
      UpdateKeepsShape(items[1..], i - 1, w);
    }
  }

  lemma {:induction false} PutKeepsShape(body: Json, root: Root, w: Json)
    requires Subtree(body, root).Some? && Shape(w) == Shape(Subtree(body, root).value)
    ensures Shape(Put(body, root, w)) == Shape(body)
  {
    hide With, Get;
    match root
    case System => WithKeepsShape(body, "system", w);
    case Content(i) =>
      var ms := Messages(body);
      WithKeepsShape(ms[i], "content", w);
      UpdateKeepsShape(ms, i, With(ms[i], "content", w));
      WithKeepsShape(body, "messages", Arr(ms[i := With(ms[i], "content", w)]));
  }

  lemma {:induction false} ScanKeepsSubtreeShape(k: Sealer, rules: seq<Rule>, ks: seq<Keyword>, t: Json, taken: Option<SpanLists>)
    requires ScanSubtree(k, rules, t, taken).Ok?
    ensures Shape(MaskKeywords(ScanSubtree(k, rules, t, taken).value, ks)) == Shape(t)
  {
    hide LeavesUnder, Traverse, Shape, MaskKeywords;
    TraverseMaps(LeafScan(k, rules, taken), t, None, 0);
    MaskingMasksLeaves(ScanSubtree(k, rules, t, taken).value, ks);
  }

  /** The whole body keeps its shape. */
  lemma {:induction false} ShapeIsKept(k: Sealer, rules: seq<Rule>, ks: seq<Keyword>, body: Json, roots: seq<Root>, queue: Option<SpanLists>)
    requires ScanAt(k, rules, ks, body, roots, queue).Ok?
    ensures Shape(ScanAt(k, rules, ks, body, roots, queue).value) == Shape(body)
    decreases |roots|
  {
    hide LeavesUnder, Subtree, Put, ScanSubtree, MaskKeywords, Shape;
    if roots != [] {
      var t := Subtree(body, roots[0]);
      if t.None? {
        ShapeIsKept(k, rules, ks, body, roots[1..], queue);
      } else {
        var wanted := |Leaves(t.value)|;
        var w := MaskKeywords(ScanSubtree(k, rules, t.value, Taken(queue, wanted)).value, ks);
        ScanKeepsSubtreeShape(k, rules, ks, t.value, Taken(queue, wanted));
        PutKeepsShape(body, roots[0], w);
        ShapeIsKept(k, rules, ks, Put(body, roots[0], w), roots[1..], Left(queue, wanted));
      }
    }
  }

  // ---------- end to end ----------

  /** Leaf alignment, end to end. With one list for every leaf that must be scanned, the scan is never refused
      for their number; when it succeeds, every such leaf has been sealed with its own list and masked, the
      body has kept its shape, and outside the scanned subtrees nothing has changed. */
  lemma {:induction false} LeavesAlign(k: Sealer, rules: seq<Rule>, ks: seq<Keyword>, body: Json, lists: SpanLists)
    requires |lists| == |RequestLeaves(body)|
    ensures var r := ScanRequest(k, rules, ks, body, Some(lists));
            && |lists| == |CollectScanLeaves(body)|
            && (r.Err? ==> r.error.SealFailed?)
            && (r.Ok? ==>
                  && |RequestLeaves(r.value)| == |lists|
                  && (forall j | 0 <= j < |lists| ::
                        Done(k, rules, ks, RequestLeaves(body)[j], lists[j], RequestLeaves(r.value)[j]))
                  && Shape(r.value) == Shape(body)
                  && Without(r.value, ScanRoots(body)) == Without(body, ScanRoots(body)))
  {
    hide ScanAt, LeavesAt, Subtree, Done, Shape, CollectAt, ScanRoots, Distinct, Without, RequestLeaves;
    RootsAreThere(body);
    CollectCounts(body, ScanRoots(body));
    RootsHoldAllLeaves(body);
    RootsAlign(k, rules, ks, body, ScanRoots(body), lists);
    var r := ScanRequest(k, rules, ks, body, Some(lists));
    if r.Ok? {
      RootsStay(k, rules, ks, body, ScanRoots(body), Some(lists));
      RootsHoldAllLeaves(r.value);
      ShapeIsKept(k, rules, ks, body, ScanRoots(body), Some(lists));
      RestIsUntouched(k, rules, ks, body, ScanRoots(body), Some(lists));
    }
  }

  /** Nothing found in any of n leaves. */
  function Silence(n: nat): SpanLists { seq(n, i => []) }

  lemma {:induction false} SilentSubtree(k: Sealer, rules: seq<Rule>, t: Json)
    ensures ScanJson(k, rules, t) == ScanJsonWithExternal(k, rules, t, Silence(|Leaves(t)|))
  {
    hide LeavesUnder, Traverse, ScanText;
    var quiet := Silence(|Leaves(t)|);
    assert forall i: nat :: ListFor(None, i) == ListFor(Some(quiet), i);
    TraverseAgrees(LeafScan(k, rules, None), LeafScan(k, rules, Some(quiet)), t, 0);
  }

  lemma {:induction false} SilentRoots(k: Sealer, rules: seq<Rule>, ks: seq<Keyword>, body: Json, roots: seq<Root>)
    requires Distinct(roots)
    ensures ScanAt(k, rules, ks, body, roots, None) == ScanAt(k, rules, ks, body, roots, Some(Silence(|LeavesAt(body, roots)|)))
    decreases |roots|
  {
    hide LeavesUnder, Subtree, Put, ScanJsonWithExternal, ScanJson, MaskKeywords;
    if roots != [] {
      var root, rest := roots[0], roots[1..];
      assert forall i | 0 <= i < |rest| :: rest[i] == roots[i + 1];
      var t := Subtree(body, root);
      if t.None? {
        SilentRoots(k, rules, ks, body, rest);
      } else {
        var n, m := |Leaves(t.value)|, |LeavesAt(body, rest)|;
        assert |LeavesAt(body, roots)| == n + m;
        assert Silence(n + m)[..n] == Silence(n) && Silence(n + m)[n..] == Silence(m);
        SilentSubtree(k, rules, t.value);
        var scanned := ScanJson(k, rules, t.value);
        if scanned.Ok? {
          var w := MaskKeywords(scanned.value, ks);
          LeavesElsewhere(body, root, w, rest);
          SilentRoots(k, rules, ks, Put(body, root, w), rest);
        }
      }
    }
  }

  /** A detector that is not there is one that finds nothing, so alignment covers that case as well. */
  lemma {:induction false} NoDetectorIsSilence(k: Sealer, rules: seq<Rule>, ks: seq<Keyword>, body: Json)
    ensures ScanRequest(k, rules, ks, body, None) == ScanRequest(k, rules, ks, body, Some(Silence(|RequestLeaves(body)|)))
  {
    hide ScanAt, LeavesAt, ScanRoots, Distinct, RequestLeaves;
    RootsAreThere(body);
    RootsHoldAllLeaves(body);
    SilentRoots(k, rules, ks, body, ScanRoots(body));
  }

  lemma {:induction false} ShortQueueIsRefused(k: Sealer, rules: seq<Rule>, ks: seq<Keyword>, body: Json, roots: seq<Root>, queue: SpanLists)
    requires Distinct(roots) && (forall r | r in roots :: Subtree(body, r).Some?)
    requires |queue| < |LeavesAt(body, roots)|
    ensures ScanAt(k, rules, ks, body, roots, Some(queue)).Err?
    decreases |roots|
  {
    hide LeavesUnder, Subtree, Put, MaskKeywords, Traverse;
    var root, rest := roots[0], roots[1..];
    assert root in roots;
    assert forall i | 0 <= i < |rest| :: rest[i] == roots[i + 1];
    var t := Subtree(body, root).value;
    var n := |Leaves(t)|;
    if n <= |queue| {
      var first := ScanJsonWithExternal(k, rules, t, queue[..n]);
      if first.Ok? {
        var w := MaskKeywords(first.value, ks);
        forall r | r in rest ensures Subtree(Put(body, root, w), r) == Subtree(body, r) {
          PutThenSubtree(body, root, w, r);
        }
        LeavesElsewhere(body, root, w, rest);
        ShortQueueIsRefused(k, rules, ks, Put(body, root, w), rest, queue[n..]);
      }
    }
  }

  /** Fewer lists than leaves never succeed. */
  lemma {:induction false} ShortListsAreRefused(k: Sealer, rules: seq<Rule>, ks: seq<Keyword>, body: Json, lists: SpanLists)
    requires |lists| < |RequestLeaves(body)|
    ensures ScanRequest(k, rules, ks, body, Some(lists)).Err?
  {
    hide ScanAt, LeavesAt, ScanRoots, Distinct, Subtree, RequestLeaves;
    RootsAreThere(body);
    RootsHoldAllLeaves(body);
    ShortQueueIsRefused(k, rules, ks, body, ScanRoots(body), lists);
  }

  // ---------- the engine's loop ----------

  method MaskKeywordsLoop(v: Json, ks: seq<Keyword>) returns (w: Json)
    ensures w == MaskKeywords(v, ks)
  {
    hide Traverse;
    w := v;
    assert ks[0..] == ks;
    for i := 0 to |ks|
      invariant MaskKeywords(v, ks) == MaskKeywords(w, ks[i..])
    {
      assert ks[i..][1..] == ks[i + 1..];
      MaskSucceeds(ks[i], w);
      var r := ScanJsonValue(LeafMask(ks[i]), w, 0);
      w := r.value.0;
    }
    assert ks[|ks|..] == [];
  }

  /** One root of the scan. */
  lemma {:induction false} ScanStep(k: Sealer, rules: seq<Rule>, ks: seq<Keyword>, body: Json, roots: seq<Root>, i: nat, queue: Option<SpanLists>)
    requires i < |roots|
    ensures var t := Subtree(body, roots[i]);
            && (t.None? ==> ScanAt(k, rules, ks, body, roots[i..], queue) == ScanAt(k, rules, ks, body, roots[i + 1..], queue))
            && (t.Some? ==>
                  var wanted := |Leaves(t.value)|;
                  var scanned := ScanSubtree(k, rules, t.value, Taken(queue, wanted));
                  ScanAt(k, rules, ks, body, roots[i..], queue) ==
                  if scanned.Err? then Err(scanned.error)
                  else ScanAt(k, rules, ks, Put(body, roots[i], MaskKeywords(scanned.value, ks)), roots[i + 1..], Left(queue, wanted)))
  {
    hide Subtree, Put, MaskKeywords, ScanSubtree, LeavesUnder;
    assert roots[i..][0] == roots[i] && roots[i..][1..] == roots[i + 1..];
  }

  lemma {:induction false} NoMoreRoots(k: Sealer, rules: seq<Rule>, ks: seq<Keyword>, body: Json, queue: Option<SpanLists>)
    ensures ScanAt(k, rules, ks, body, [], queue) == Ok(body)
  {
  }

  /** Scans one subtree, with its lists if there is a detector. */
  method ScanOne(k: Sealer, rules: seq<Rule>, v: Json, taken: Option<SpanLists>) returns (res: Result<Json, ScanError>)
    ensures res == ScanSubtree(k, rules, v, taken)
  {
    hide Traverse, LeavesUnder;
    if taken.Some? && |taken.value| != |Leaves(v)| {
      return Err(ExternalSpanCount(|Leaves(v)|, |taken.value|));
    }
    var scanned := ScanJsonValue(LeafScan(k, rules, taken), v, 0);
    if scanned.Err? {
      return Err(scanned.error);
    }
    return Ok(scanned.value.0);
  }

  /** Rewrites the body root by root, draining each root's lists from the queue. */
  method ScanRequestWithExternal(k: Sealer, rules: seq<Rule>, ks: seq<Keyword>, request: Json, lists: Option<SpanLists>)
    returns (res: Result<Json, ScanError>)
    ensures res == ScanRequest(k, rules, ks, request, lists)
  {
    hide Subtree, Put, MaskKeywords, LeavesUnder, ScanAt, ScanSubtree;
    var roots := ScanRoots(request);
    var body, queue := request, lists;
    assert roots[0..] == roots;
    for i := 0 to |roots|
      invariant ScanRequest(k, rules, ks, request, lists) == ScanAt(k, rules, ks, body, roots[i..], queue)
    {
      ScanStep(k, rules, ks, body, roots, i, queue);
      var subtree := Subtree(body, roots[i]);
      if subtree.Some? {
        var wanted := |Leaves(subtree.value)|;
        var scanned := ScanOne(k, rules, subtree.value, Taken(queue, wanted));
        queue := Left(queue, wanted);
        if scanned.Err? {
          return Err(scanned.error);
        }
        var masked := MaskKeywordsLoop(scanned.value, ks);
        body := Put(body, roots[i], masked);
      }
    }
    assert roots[|roots|..] == [];
    NoMoreRoots(k, rules, ks, body, queue);
    return Ok(body);
  }
}
