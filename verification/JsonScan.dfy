/** Scanning a JSON request: the walk over string leaves and the alignment of detector lists. */
module JsonScan {
  import opened Text
  import opened Sealing
  import opened Keywords
  import opened Scan

  datatype Json =
    | Null
    | Bool(b: bool)
    | Number(literal: string)
    | Str(text: string)
    | Arr(items: seq<Json>)
    | Obj(fields: seq<Field>)

  datatype Field = Field(key: string, value: Json)

  /** A string leaf and the object key it hangs under. */
  datatype Leaf = Leaf(text: string, key: Option<string>)

  // ---------- the leaves of a tree ----------

  function LeavesUnder(v: Json, key: Option<string>): seq<Leaf>
    decreases v, 1
  {
    match v
    case Str(s) => [Leaf(s, key)]
    case Arr(items) => LeavesOfItems(items, key)
    case Obj(fields) => LeavesOfFields(fields)
    case _ => []
  }

  function LeavesOfItems(items: seq<Json>, key: Option<string>): seq<Leaf>
    decreases items, 0
  {
    if items == [] then [] else LeavesUnder(items[0], key) + LeavesOfItems(items[1..], key)
  }

  function LeavesOfFields(fields: seq<Field>): seq<Leaf>
    decreases fields, 0
  {
    if fields == [] then [] else LeavesUnder(fields[0].value, Some(fields[0].key)) + LeavesOfFields(fields[1..])
  }

  function Leaves(v: Json): seq<Leaf> { LeavesUnder(v, None) }

  /** The tree with its strings blanked. */
  function Shape(v: Json): Json
    decreases v, 1
  {
    match v
    case Str(_) => Str("")
    case Arr(items) => Arr(ShapeOfItems(items))
    case Obj(fields) => Obj(ShapeOfFields(fields))
    case _ => v
  }

  function ShapeOfItems(items: seq<Json>): (r: seq<Json>)
    ensures |r| == |items|
    decreases items, 0
  {
    if items == [] then [] else [Shape(items[0])] + ShapeOfItems(items[1..])
  }

  function ShapeOfFields(fields: seq<Field>): (r: seq<Field>)
    ensures |r| == |fields|
    decreases fields, 0
  {
    if fields == [] then [] else [Field(fields[0].key, Shape(fields[0].value))] + ShapeOfFields(fields[1..])
  }

  // ---------- rewriting every leaf ----------

  /** What is done to the n-th leaf. */
  type LeafMap = (nat, string) -> Result<string, ScanError>

  /** Rewrites the leaves in walk order, counting them; the first failure ends the walk. */
  function Traverse(f: LeafMap, v: Json, next: nat): Result<(Json, nat), ScanError>
    decreases v, 1
  {
    match v
    case Str(s) =>
      (match f(next, s)
       case Err(e) => Err(e)
       case Ok(t) => Ok((Str(t), next + 1)))
    case Arr(items) =>
      (match TraverseItems(f, items, next)
       case Err(e) => Err(e)
       case Ok((out, n)) => Ok((Arr(out), n)))
    case Obj(fields) =>
      (match TraverseFields(f, fields, next)
       case Err(e) => Err(e)
       case Ok((out, n)) => Ok((Obj(out), n)))
    case _ => Ok((v, next))
  }

  function TraverseItems(f: LeafMap, items: seq<Json>, next: nat): Result<(seq<Json>, nat), ScanError>
    decreases items, 0
  {
    if items == [] then Ok(([], next))
    else
      match Traverse(f, items[0], next)
      case Err(e) => Err(e)
      case Ok((w, n)) =>
        match TraverseItems(f, items[1..], n)
        case Err(e) => Err(e)
        case Ok((rest, m)) => Ok(([w] + rest, m))
  }

  function TraverseFields(f: LeafMap, fields: seq<Field>, next: nat): Result<(seq<Field>, nat), ScanError>
    decreases fields, 0
  {
    if fields == [] then Ok(([], next))
    else
      match Traverse(f, fields[0].value, next)
      case Err(e) => Err(e)
      case Ok((w, n)) =>
        match TraverseFields(f, fields[1..], n)
        case Err(e) => Err(e)
        case Ok((rest, m)) => Ok(([Field(fields[0].key, w)] + rest, m))
  }

  /** The leaves after a walk: same keys, and the j-th text is what `f` makes of the j-th. */
  predicate Mapped(f: LeafMap, before: seq<Leaf>, after: seq<Leaf>, next: nat) {
    && |after| == |before|
    && forall j | 0 <= j < |before| :: f(next + j, before[j].text) == Ok(after[j].text) && after[j].key == before[j].key
  }

  /** The failing leaf of a walk that fails: the first, with its own error. */
  ghost predicate FailsAt(f: LeafMap, leaves: seq<Leaf>, next: nat, e: ScanError) {
    exists j | 0 <= j < |leaves| :: f(next + j, leaves[j].text) == Err(e) && forall i | 0 <= i < j :: f(next + i, leaves[i].text).Ok?
  }

  lemma {:induction false} MappedConcat(f: LeafMap, a: seq<Leaf>, a': seq<Leaf>, b: seq<Leaf>, b': seq<Leaf>, next: nat)
    requires Mapped(f, a, a', next) && Mapped(f, b, b', next + |a|)
    ensures Mapped(f, a + b, a' + b', next)
  {
    forall j | 0 <= j < |a + b|
      ensures f(next + j, (a + b)[j].text) == Ok((a' + b')[j].text) && (a' + b')[j].key == (a + b)[j].key
    {
      if j >= |a| {
        assert f(next + |a| + (j - |a|), b[j - |a|].text) == Ok(b'[j - |a|].text);
        assert next + |a| + (j - |a|) == next + j;
      }
    }
  }

  lemma {:induction false} FailsInFront(f: LeafMap, a: seq<Leaf>, b: seq<Leaf>, next: nat, e: ScanError)
    requires FailsAt(f, a, next, e)
    ensures FailsAt(f, a + b, next, e)
  {
    var j :| 0 <= j < |a| && f(next + j, a[j].text) == Err(e) && forall i | 0 <= i < j :: f(next + i, a[i].text).Ok?;
    assert (a + b)[j] == a[j];
    forall i | 0 <= i < j ensures f(next + i, (a + b)[i].text).Ok? {
      assert (a + b)[i] == a[i];
    }
  }

  lemma {:induction false} FailsBehind(f: LeafMap, a: seq<Leaf>, a': seq<Leaf>, b: seq<Leaf>, next: nat, e: ScanError)
    requires Mapped(f, a, a', next) && FailsAt(f, b, next + |a|, e)
    ensures FailsAt(f, a + b, next, e)
  {
    var j :| 0 <= j < |b| && f(next + |a| + j, b[j].text) == Err(e)
             && forall i | 0 <= i < j :: f(next + |a| + i, b[i].text).Ok?;
    var p := |a| + j;
    assert (a + b)[p] == b[j] && next + p == next + |a| + j;
    forall i | 0 <= i < p ensures f(next + i, (a + b)[i].text).Ok? {
      if i < |a| {
        assert f(next + i, a[i].text) == Ok(a'[i].text);
      } else {
        assert f(next + |a| + (i - |a|), b[i - |a|].text).Ok? && next + |a| + (i - |a|) == next + i;
      }
    }
  }

  /** The walk keeps the shape, counts the leaves, and does to the j-th leaf what `f` does to `j`. */
  lemma {:induction false} TraverseMaps(f: LeafMap, v: Json, key: Option<string>, next: nat)
    ensures match Traverse(f, v, next)
            case Ok(r) => r.1 == next + |LeavesUnder(v, key)| && Shape(r.0) == Shape(v)
                          && Mapped(f, LeavesUnder(v, key), LeavesUnder(r.0, key), next)
            case Err(e) => FailsAt(f, LeavesUnder(v, key), next, e)
    decreases v, 1
  {
    match v
    case Str(s) =>
      var leaf := LeavesUnder(v, key);
      assert leaf[0].text == s && next + 0 == next;
    case Arr(items) => ItemsMap(f, items, key, next);
    case Obj(fields) => FieldsMap(f, fields, next);
    case _ =>
  }

  lemma {:induction false} ItemsMap(f: LeafMap, items: seq<Json>, key: Option<string>, next: nat)
    ensures match TraverseItems(f, items, next)
            case Ok(r) => r.1 == next + |LeavesOfItems(items, key)| && ShapeOfItems(r.0) == ShapeOfItems(items)
                          && Mapped(f, LeavesOfItems(items, key), LeavesOfItems(r.0, key), next)
            case Err(e) => FailsAt(f, LeavesOfItems(items, key), next, e)
    decreases items, 0
  {
    hide Mapped, FailsAt;
    if items == [] {
      NothingMapped(f, next);
    } else {
      TraverseMaps(f, items[0], key, next);
      var first := Traverse(f, items[0], next);
      var a := LeavesUnder(items[0], key);
      var b := LeavesOfItems(items[1..], key);
      if first.Ok? {
        var (w, n) := first.value;
        ItemsMap(f, items[1..], key, n);
        var rest := TraverseItems(f, items[1..], n);
        if rest.Ok? {
          assert ([w] + rest.value.0)[1..] == rest.value.0;
          MappedConcat(f, a, LeavesUnder(w, key), b, LeavesOfItems(rest.value.0, key), next);
        } else {
          FailsBehind(f, a, LeavesUnder(w, key), b, next, rest.error);
        }
      } else {
        FailsInFront(f, a, b, next, first.error);
      }
    }
  }

  lemma {:induction false} NothingMapped(f: LeafMap, next: nat)
    ensures Mapped(f, [], [], next)
  {
  }

  lemma {:induction false} FieldsMap(f: LeafMap, fields: seq<Field>, next: nat)
    ensures match TraverseFields(f, fields, next)
            case Ok(r) => r.1 == next + |LeavesOfFields(fields)| && ShapeOfFields(r.0) == ShapeOfFields(fields)
                          && Mapped(f, LeavesOfFields(fields), LeavesOfFields(r.0), next)
            case Err(e) => FailsAt(f, LeavesOfFields(fields), next, e)
    decreases fields, 0
  {
    hide Mapped, FailsAt;
    if fields == [] {
      NothingMapped(f, next);
    } else {
      var key := Some(fields[0].key);
      TraverseMaps(f, fields[0].value, key, next);
      var first := Traverse(f, fields[0].value, next);
      var a := LeavesUnder(fields[0].value, key);
      var b := LeavesOfFields(fields[1..]);
      if first.Ok? {
        var (w, n) := first.value;
        FieldsMap(f, fields[1..], n);
        var rest := TraverseFields(f, fields[1..], n);
        if rest.Ok? {
          assert ([Field(fields[0].key, w)] + rest.value.0)[1..] == rest.value.0;
          MappedConcat(f, a, LeavesUnder(w, key), b, LeavesOfFields(rest.value.0), next);
        } else {
          FailsBehind(f, a, LeavesUnder(w, key), b, next, rest.error);
        }
      } else {
        FailsInFront(f, a, b, next, first.error);
      }
    }
  }

  // ---------- the walks of the engine ----------

  type SpanLists = seq<seq<ExternalSpan>>

  /** The detector list of a leaf; none when there is no list for it. */
  function ListFor(lists: Option<SpanLists>, i: nat): seq<ExternalSpan> {
    if lists.Some? && i < |lists.value| then lists.value[i] else []
  }

  function LeafScan(k: Sealer, rules: seq<Rule>, lists: Option<SpanLists>): LeafMap {
    (i: nat, s: string) => ScanText(k, rules, s, ListFor(lists, i))
  }

  /** Walks that do the same to every leaf are the same. */
  lemma {:induction false} TraverseAgrees(f: LeafMap, g: LeafMap, v: Json, next: nat)
    requires forall i, s :: f(i, s) == g(i, s)
    ensures Traverse(f, v, next) == Traverse(g, v, next)
    decreases v, 1
  {
    match v
    case Arr(items) => ItemsAgree(f, g, items, next);
    case Obj(fields) => FieldsAgree(f, g, fields, next);
    case _ =>
  }

  lemma {:induction false} ItemsAgree(f: LeafMap, g: LeafMap, items: seq<Json>, next: nat)
    requires forall i, s :: f(i, s) == g(i, s)
    ensures TraverseItems(f, items, next) == TraverseItems(g, items, next)
    decreases items, 0
  {
    if items != [] {
      TraverseAgrees(f, g, items[0], next);
      var r := Traverse(f, items[0], next);
      if r.Ok? {
        ItemsAgree(f, g, items[1..], r.value.1);
      }
    }
  }

  lemma {:induction false} FieldsAgree(f: LeafMap, g: LeafMap, fields: seq<Field>, next: nat)
    requires forall i, s :: f(i, s) == g(i, s)
    ensures TraverseFields(f, fields, next) == TraverseFields(g, fields, next)
    decreases fields, 0
  {
    if fields != [] {
      TraverseAgrees(f, g, fields[0].value, next);
      var r := Traverse(f, fields[0].value, next);
      if r.Ok? {
        FieldsAgree(f, g, fields[1..], r.value.1);
      }
    }
  }

  function LeafMask(kw: Keyword): LeafMap {
    (i: nat, s: string) => Ok(Substitute(kw.Masking(), s))
  }

  /** The engine's walk, which threads the leaf counter through nested loops. */
  method ScanJsonValue(f: LeafMap, v: Json, nextLeaf: nat) returns (res: Result<(Json, nat), ScanError>)
    ensures res == Traverse(f, v, nextLeaf)
    decreases v
  {
    match v {
      case Str(s) =>
        var t := f(nextLeaf, s);
        if t.Err? {
          return Err(t.error);
        }
        return Ok((Str(t.value), nextLeaf + 1));
      case Arr(items) =>
        var out: seq<Json> := [];
        var n: nat := nextLeaf;
        assert items[0..] == items;
        ThenItemsNone(TraverseItems(f, items, n));
        for i := 0 to |items|
          invariant TraverseItems(f, items, nextLeaf) == ThenItems(out, TraverseItems(f, items[i..], n))
        {
          assert items[i..][0] == items[i] && items[i..][1..] == items[i + 1..];
          var r := ScanJsonValue(f, items[i], n);
          if r.Err? {
            return Err(r.error);
          }
          ThenItemsTwice(out, r.value.0, TraverseItems(f, items[i + 1..], r.value.1));
          out := out + [r.value.0];
          n := r.value.1;
        }
        assert items[|items|..] == [] && out + [] == out;
        return Ok((Arr(out), n));
      case Obj(fields) =>
        var out: seq<Field> := [];
        var n: nat := nextLeaf;
        assert fields[0..] == fields;
        ThenFieldsNone(TraverseFields(f, fields, n));
        for i := 0 to |fields|
          invariant TraverseFields(f, fields, nextLeaf) == ThenFields(out, TraverseFields(f, fields[i..], n))
        {
          assert fields[i..][0] == fields[i] && fields[i..][1..] == fields[i + 1..];
          var r := ScanJsonValue(f, fields[i].value, n);
          if r.Err? {
            return Err(r.error);
          }
          ThenFieldsTwice(out, Field(fields[i].key, r.value.0), TraverseFields(f, fields[i + 1..], r.value.1));
          out := out + [Field(fields[i].key, r.value.0)];
          n := r.value.1;
        }
        assert fields[|fields|..] == [] && out + [] == out;
        return Ok((Obj(out), n));
      case _ =>
        return Ok((v, nextLeaf));
    }
  }

  function ThenItems(done: seq<Json>, r: Result<(seq<Json>, nat), ScanError>): Result<(seq<Json>, nat), ScanError> {
    match r
    case Err(e) => Err(e)
    case Ok((x, n)) => Ok((done + x, n))
  }

  lemma {:induction false} ThenItemsNone(r: Result<(seq<Json>, nat), ScanError>)
    ensures ThenItems([], r) == r
  {
    if r.Ok? {
      assert [] + r.value.0 == r.value.0;
    }
  }

  lemma {:induction false} ThenItemsTwice(done: seq<Json>, w: Json, r: Result<(seq<Json>, nat), ScanError>)
    ensures ThenItems(done, ThenItems([w], r)) == ThenItems(done + [w], r)
  {
    if r.Ok? {
      assert done + ([w] + r.value.0) == done + [w] + r.value.0;
    }
  }

  function ThenFields(done: seq<Field>, r: Result<(seq<Field>, nat), ScanError>): Result<(seq<Field>, nat), ScanError> {
    match r
    case Err(e) => Err(e)
    case Ok((x, n)) => Ok((done + x, n))
  }

  lemma {:induction false} ThenFieldsNone(r: Result<(seq<Field>, nat), ScanError>)
    ensures ThenFields([], r) == r
  {
    if r.Ok? {
      assert [] + r.value.0 == r.value.0;
    }
  }

  lemma {:induction false} ThenFieldsTwice(done: seq<Field>, w: Field, r: Result<(seq<Field>, nat), ScanError>)
    ensures ThenFields(done, ThenFields([w], r)) == ThenFields(done + [w], r)
  {
    if r.Ok? {
      assert done + ([w] + r.value.0) == done + [w] + r.value.0;
    }
  }
}
