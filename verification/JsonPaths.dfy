/** What a walk over a request does at each place of it. */
module JsonPaths {
  import opened Text
  import opened JsonScan

  /** Into an item of an array, or into a member of an object. */
  datatype Turn = Item(index: nat) | Member(index: nat)

  /** The value at the end of a path, if it leads anywhere. */
  function Follow(v: Json, path: seq<Turn>): Option<Json>
    decreases |path|
  {
    if path == [] then Some(v)
    else
      match (v, path[0])
      case (Arr(items), Item(i)) => if i < |items| then Follow(items[i], path[1..]) else None
      case (Obj(fields), Member(i)) => if i < |fields| then Follow(fields[i].value, path[1..]) else None
      case _ => None
  }

  /** The key of the last member on a path. */
  function KeyAt(v: Json, path: seq<Turn>, key: Option<string>): Option<string>
    decreases |path|
  {
    if path == [] then key
    else
      match (v, path[0])
      case (Arr(items), Item(i)) => if i < |items| then KeyAt(items[i], path[1..], key) else None
      case (Obj(fields), Member(i)) => if i < |fields| then KeyAt(fields[i].value, path[1..], Some(fields[i].key)) else None
      case _ => None
  }

  lemma {:induction false} ItemVisited(f: LeafMap, items: seq<Json>, key: Option<string>, next: nat, i: nat) returns (at: nat)
    requires TraverseItems(f, items, next).Ok? && i < |items|
    ensures |TraverseItems(f, items, next).value.0| == |items|
    ensures var r := Traverse(f, items[i], next + at); r.Ok? && r.value.0 == TraverseItems(f, items, next).value.0[i]
    ensures at <= |LeavesOfItems(items, key)| && LeavesUnder(items[i], key) <= LeavesOfItems(items, key)[at..]
    decreases i
  {
    hide Traverse, LeavesUnder, Shape;
    TraverseMaps(f, items[0], key, next);
    var (w, n) := Traverse(f, items[0], next).value;
    var first, rest := LeavesUnder(items[0], key), LeavesOfItems(items[1..], key);
    SameCount(f, items[1..], n);
    if i == 0 {
      at := 0;
      assert (first + rest)[0..] == first + rest;
    } else {
      var j := ItemVisited(f, items[1..], key, n, i - 1);
      at := |first| + j;
      assert items[1..][i - 1] == items[i];
      assert (first + rest)[at..] == rest[j..];
    }
  }

  lemma {:induction false} SameCount(f: LeafMap, items: seq<Json>, next: nat)
    requires TraverseItems(f, items, next).Ok?
    ensures |TraverseItems(f, items, next).value.0| == |items|
  {
    hide Traverse;
    if items != [] {
      SameCount(f, items[1..], Traverse(f, items[0], next).value.1);
    }
  }

  lemma {:induction false} MemberVisited(f: LeafMap, fields: seq<Field>, next: nat, i: nat) returns (at: nat)
    requires TraverseFields(f, fields, next).Ok? && i < |fields|
    ensures |TraverseFields(f, fields, next).value.0| == |fields|
    ensures var r := Traverse(f, fields[i].value, next + at);
            r.Ok? && TraverseFields(f, fields, next).value.0[i] == Field(fields[i].key, r.value.0)
    ensures at <= |LeavesOfFields(fields)| && LeavesUnder(fields[i].value, Some(fields[i].key)) <= LeavesOfFields(fields)[at..]
    decreases i
  {
    hide Traverse, LeavesUnder, Shape;
    var key := Some(fields[0].key);
    TraverseMaps(f, fields[0].value, key, next);
    var (w, n) := Traverse(f, fields[0].value, next).value;
    var first, rest := LeavesUnder(fields[0].value, key), LeavesOfFields(fields[1..]);
    SameKeys(f, fields[1..], n);
    if i == 0 {
      at := 0;
      assert (first + rest)[0..] == first + rest;
    } else {
      var j := MemberVisited(f, fields[1..], n, i - 1);
      at := |first| + j;
      assert fields[1..][i - 1] == fields[i];
      assert (first + rest)[at..] == rest[j..];
    }
  }

  lemma {:induction false} SameKeys(f: LeafMap, fields: seq<Field>, next: nat)
    requires TraverseFields(f, fields, next).Ok?
    ensures var out := TraverseFields(f, fields, next).value.0;
            |out| == |fields| && forall i | 0 <= i < |fields| :: out[i].key == fields[i].key
  {
    hide Traverse;
    if fields != [] {
      SameKeys(f, fields[1..], Traverse(f, fields[0].value, next).value.1);
    }
  }

  /** What a walk makes of a value at the end of a path; `j` counts the leaves before a string there. */
  predicate VisitedAs(f: LeafMap, before: Json, after: Json, n: nat) {
    match before
    case Str(s) => after.Str? && f(n, s) == Ok(after.text)
    case Arr(items) => after.Arr? && |after.items| == |items|
    case Obj(fields) => after.Obj? && |after.fields| == |fields| && forall i | 0 <= i < |fields| :: after.fields[i].key == fields[i].key
    case _ => after == before
  }

  /** A walk leads every path to where it led before. A string there is one of the leaves, under the key of the
      last member on the path, and has become what `f` makes of it; an array keeps its length and an object its
      keys; anything else is kept as it is. */
  lemma {:induction false} EveryPlaceIsVisited(f: LeafMap, v: Json, key: Option<string>, next: nat, path: seq<Turn>) returns (j: nat)
    requires Traverse(f, v, next).Ok? && Follow(v, path).Some?
    ensures Follow(Traverse(f, v, next).value.0, path).Some?
    ensures VisitedAs(f, Follow(v, path).value, Follow(Traverse(f, v, next).value.0, path).value, next + j)
    ensures Follow(v, path).value.Str? ==>
              j < |LeavesUnder(v, key)| && LeavesUnder(v, key)[j] == Leaf(Follow(v, path).value.text, KeyAt(v, path, key))
    decreases |path|
  {
    hide TraverseItems, TraverseFields, LeavesOfItems, LeavesOfFields, VisitedAs;
    if path == [] {
      j := 0;
      HereIsVisited(f, v, key, next);
    } else {
      var i := path[0].index;
      match v
      case Arr(items) =>
        var at := ItemVisited(f, items, key, next, i);
        var n := EveryPlaceIsVisited(f, items[i], key, next + at, path[1..]);
        j := at + n;
        assert next + j == next + at + n;
      case Obj(fields) =>
        var at := MemberVisited(f, fields, next, i);
        var n := EveryPlaceIsVisited(f, fields[i].value, Some(fields[i].key), next + at, path[1..]);
        j := at + n;
        assert next + j == next + at + n;
    }
  }

  lemma {:induction false} HereIsVisited(f: LeafMap, v: Json, key: Option<string>, next: nat)
    requires Traverse(f, v, next).Ok?
    ensures VisitedAs(f, v, Traverse(f, v, next).value.0, next + 0)
    ensures v.Str? ==> LeavesUnder(v, key) == [Leaf(v.text, key)]
  {
    hide TraverseItems, TraverseFields;
    match v
    case Arr(items) => SameCount(f, items, next);
    case Obj(fields) => SameKeys(f, fields, next);
    case _ =>
  }

  /** And every leaf is a string at the end of some path. */
  lemma {:induction false} EveryLeafIsAString(v: Json, key: Option<string>, j: nat) returns (path: seq<Turn>)
    requires j < |LeavesUnder(v, key)|
    ensures Follow(v, path) == Some(Str(LeavesUnder(v, key)[j].text)) && KeyAt(v, path, key) == LeavesUnder(v, key)[j].key
    decreases v, 1
  {
    hide LeavesOfItems, LeavesOfFields;
    match v
    case Arr(items) =>
      var i, rest := LeafOfItem(items, key, j);
      path := [Item(i)] + rest;
      assert path[1..] == rest;
    case Obj(fields) =>
      var i, rest := LeafOfMember(fields, j);
      path := [Member(i)] + rest;
      assert path[1..] == rest;
    case _ => path := [];
  }

  lemma {:induction false} LeafOfItem(items: seq<Json>, key: Option<string>, j: nat) returns (i: nat, path: seq<Turn>)
    requires j < |LeavesOfItems(items, key)|
    ensures i < |items| && Follow(items[i], path) == Some(Str(LeavesOfItems(items, key)[j].text))
    ensures KeyAt(items[i], path, key) == LeavesOfItems(items, key)[j].key
    decreases items, 0
  {
    hide LeavesUnder, Follow, KeyAt;
    var first := LeavesUnder(items[0], key);
    if j < |first| {
      i := 0;
      path := EveryLeafIsAString(items[0], key, j);
    } else {
      var n;
      n, path := LeafOfItem(items[1..], key, j - |first|);
      i := n + 1;
    }
  }

  lemma {:induction false} LeafOfMember(fields: seq<Field>, j: nat) returns (i: nat, path: seq<Turn>)
    requires j < |LeavesOfFields(fields)|
    ensures i < |fields| && Follow(fields[i].value, path) == Some(Str(LeavesOfFields(fields)[j].text))
    ensures KeyAt(fields[i].value, path, Some(fields[i].key)) == LeavesOfFields(fields)[j].key
    decreases fields, 0
  {
    hide LeavesUnder, Follow, KeyAt;
    var key := Some(fields[0].key);
    var first := LeavesUnder(fields[0].value, key);
    if j < |first| {
      i := 0;
      path := EveryLeafIsAString(fields[0].value, key, j);
    } else {
      var n;
      n, path := LeafOfMember(fields[1..], j - |first|);
      i := n + 1;
    }
  }
}
