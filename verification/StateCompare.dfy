/** harness/statecompare.go: comparing captured server states. A value is a decoded BSON tree; a document
    or array whose bytes cannot be split into elements is kept as those bytes. */
module StateCompare {
  import opened Common
  import opened Orders

  datatype Field = Field(key: string, value: Value)

  datatype Value =
    | Doc(fields: seq<Field>)
    | Arr(items: seq<Value>)
    | Leaf(code: int, bytes: seq<int>)
    | BadDoc(bytes: seq<int>)
    | BadArr(bytes: seq<int>)

  datatype BsonType = EmbeddedDocument | Array | Other(code: int)

  function TypeOf(v: Value): BsonType {
    match v
    case Doc(_) => EmbeddedDocument
    case BadDoc(_) => EmbeddedDocument
    case Arr(_) => Array
    case BadArr(_) => Array
    case Leaf(code, _) => Other(code)
  }

  datatype Detail =
    | TypesDiffer
    | MalformedDocument
    | MalformedArray
    | LengthsDiffer
    | ValuesDiffer
    | IdsDiffer
    | MissingOnSecond
    | MissingOnFirst
    | OnlyOn(source: string)

  datatype Divergence = Divergence(path: string, detail: Detail)

  // ---------------------------------------------------------------- fields and keys

  /** The map compareDocumentValue builds: the last field with a key wins. */
  function FieldMap(fields: seq<Field>): (m: map<string, Value>)
    ensures forall k :: k in m ==> exists i :: 0 <= i < |fields| && fields[i] == Field(k, m[k])
  {
    if fields == [] then map[]
    else
      var m, last := FieldMap(fields[..|fields| - 1]), fields[|fields| - 1];
      assert fields[|fields| - 1] == Field(last.key, last.value);
      m[last.key := last.value]
  }

  /** Field i is the last one with this key. */
  predicate LastNamed(fields: seq<Field>, key: string, i: nat) {
    i < |fields| && fields[i].key == key && forall k :: i < k < |fields| ==> fields[k].key != key
  }

  /** A key maps to the value of the last field that has it; other keys are absent. */
  lemma {:induction false} LastFieldWins(fields: seq<Field>, key: string)
    ensures key in FieldMap(fields) <==> exists i: nat :: LastNamed(fields, key, i)
    ensures forall i: nat :: LastNamed(fields, key, i) ==> FieldMap(fields)[key] == fields[i].value
  {
    if fields != [] {
      var n := |fields| - 1;
      assert fields == fields[..n] + [fields[n]];
      LastFieldWins(fields[..n], key);
      if fields[n].key == key {
        assert LastNamed(fields, key, n);
      } else {
        forall i: nat ensures LastNamed(fields, key, i) <==> LastNamed(fields[..n], key, i) {
          assert i < n ==> fields[i] == fields[..n][i];
          assert forall k :: 0 <= k < n ==> fields[k] == fields[..n][k];
        }
      }
    }
  }

  /** The field of a document under a key; it is a part of the document. */
  function FieldOf(v: Value, key: string): (r: Value)
    requires v.Doc? && key in FieldMap(v.fields)
    ensures r == FieldMap(v.fields)[key] && r < v
  {
    var m := FieldMap(v.fields);
    assert exists i :: 0 <= i < |v.fields| && v.fields[i] == Field(key, m[key]);
    m[key]
  }

  ghost function AnyOrder(keys: set<string>): (r: seq<string>)
    ensures multiset(r) == multiset(keys)
  {
    if keys == {} then []
    else
      var k :| k in keys;
      [k] + AnyOrder(keys - {k})
  }

  ghost function KeysInOrder(keys: set<string>): (r: seq<string>)
    ensures forall k :: k in r <==> k in keys
  {
    var r := SortBy(AnyOrder(keys), LexLe);
    assert forall k :: k in r <==> k in multiset(r);
    r
  }

  /** Every key once, in increasing order. */
  lemma KeysAreInOrder(keys: set<string>)
    ensures Sorted(KeysInOrder(keys), LexLe) && multiset(KeysInOrder(keys)) == multiset(keys)
  {
    LexIsTotalOrder();
    SortBySorts(AnyOrder(keys), LexLe);
  }

  /** The union of the keys of both maps, sorted. */
  method SortedKeys<V>(a: map<string, V>, b: map<string, V>) returns (out: seq<string>)
    ensures out == KeysInOrder(a.Keys + b.Keys)
  {
    var seen := a.Keys + b.Keys;
    var rest := seen;
    out := [];
    while rest != {}
      invariant rest <= seen && multiset(out) + multiset(rest) == multiset(seen)
      decreases rest
    {
      var k :| k in rest;
      out := out + [k];
      rest := rest - {k};
    }
    LexIsTotalOrder();
    SortByUnique(out, AnyOrder(seen), LexLe);
    out := SortBy(out, LexLe);
  }

  // ---------------------------------------------------------------- comparison

  /** A root _id that is a document is compared with its field order. */
  predicate ExactId(root: bool, key: string, v: Value) {
    root && key == "_id" && TypeOf(v) == EmbeddedDocument
  }

  ghost function CompareValues(path: string, a: Value, b: Value, root: bool): Option<Divergence>
    decreases a, 1, 0
  {
    if TypeOf(a) != TypeOf(b) then Some(Divergence(path, TypesDiffer))
    else match a
      case Leaf(_, _) => if a == b then None else Some(Divergence(path, ValuesDiffer))
      case Doc(_) =>
        if b.Doc? then CompareFields(path, a, b, KeysInOrder(FieldMap(a.fields).Keys + FieldMap(b.fields).Keys), root)
        else Some(Divergence(path, MalformedDocument))
      case BadDoc(_) => Some(Divergence(path, MalformedDocument))
      case Arr(_) => if !b.Arr? then Some(Divergence(path, MalformedArray))
                     else if |a.items| != |b.items| then Some(Divergence(path, LengthsDiffer))
                     else CompareItems(path, a, b, 0)
      case BadArr(_) => Some(Divergence(path, MalformedArray))
  }

  /** The first divergence among the given keys. */
  ghost function CompareFields(path: string, a: Value, b: Value, keys: seq<string>, root: bool): Option<Divergence>
    requires a.Doc? && b.Doc?
    decreases a, 0, |keys|
  {
    if keys == [] then None
    else
      var d := CompareField(path + "." + keys[0], a, b, keys[0], root);
      if d.Some? then d else CompareFields(path, a, b, keys[1..], root)
  }

  ghost function CompareField(child: string, a: Value, b: Value, key: string, root: bool): Option<Divergence>
    requires a.Doc? && b.Doc?
    decreases a, 0, 0
  {
    var fa, fb := FieldMap(a.fields), FieldMap(b.fields);
    if key !in fb then Some(Divergence(child, MissingOnSecond))
    else if key !in fa then Some(Divergence(child, MissingOnFirst))
    else if ExactId(root, key, fa[key]) then (if fa[key] == fb[key] then None else Some(Divergence(child, IdsDiffer)))
    else CompareValues(child, FieldOf(a, key), FieldOf(b, key), false)
  }

  ghost function CompareItems(path: string, a: Value, b: Value, i: nat): Option<Divergence>
    requires a.Arr? && b.Arr? && |a.items| == |b.items| && i <= |a.items|
    decreases a, 0, |a.items| - i
  {
    if i == |a.items| then None
    else
      var d := CompareItem(path, a, b, i);
      if d.Some? then d else CompareItems(path, a, b, i + 1)
  }

  ghost function CompareItem(path: string, a: Value, b: Value, i: nat): Option<Divergence>
    requires a.Arr? && b.Arr? && |a.items| == |b.items| && i < |a.items|
    decreases a, 0, 0
  {
    CompareValues(ItemPath(path, i), a.items[i], b.items[i], false)
  }

  function ItemPath(path: string, i: nat): string {
    path + "[" + Digits(i) + "]"
  }

  // ---------------------------------------------------------------- the loops

  method CompareRawDocuments(path: string, a: Value, b: Value) returns (d: Option<Divergence>)
    ensures d == CompareValues(path, a, b, true)
  {
    d := CompareRawValue(path, a, b, true);
  }

  method CompareRawValue(path: string, a: Value, b: Value, root: bool) returns (d: Option<Divergence>)
    ensures d == CompareValues(path, a, b, root)
    decreases a, 1
  {
    if TypeOf(a) != TypeOf(b) { return Some(Divergence(path, TypesDiffer)); }
    match TypeOf(a) {
      case EmbeddedDocument => d := CompareDocumentValue(path, a, b, root);
      case Array => d := CompareArrayValue(path, a, b);
      case Other(_) => d := if a == b then None else Some(Divergence(path, ValuesDiffer));
    }
  }

  /** The loop that builds the field map of a document. */
  method MapFields(fields: seq<Field>) returns (m: map<string, Value>)
    ensures m == FieldMap(fields)
  {
    m := map[];
    for i := 0 to |fields|
      invariant m == FieldMap(fields[..i])
    {
      assert fields[..i + 1][..i] == fields[..i];
      m := m[fields[i].key := fields[i].value];
    }
    assert fields[..|fields|] == fields;
  }

  method CompareDocumentValue(path: string, a: Value, b: Value, root: bool) returns (d: Option<Divergence>)
    requires TypeOf(a) == TypeOf(b) == EmbeddedDocument
    ensures d == CompareValues(path, a, b, root)
    decreases a, 0
  {
    if a.BadDoc? || b.BadDoc? { return Some(Divergence(path, MalformedDocument)); }
    var fieldsA := MapFields(a.fields);
    var fieldsB := MapFields(b.fields);
    var keys := SortedKeys(fieldsA, fieldsB);
    for i := 0 to |keys|
      invariant CompareFields(path, a, b, keys, root) == CompareFields(path, a, b, keys[i..], root)
    {
      var key := keys[i];
      var child := path + "." + key;
      assert keys[i..][0] == key && keys[i..][1..] == keys[i + 1..];
      if key !in fieldsB { return Some(Divergence(child, MissingOnSecond)); }
      if key !in fieldsA { return Some(Divergence(child, MissingOnFirst)); }
      var va, vb := fieldsA[key], fieldsB[key];
      if root && key == "_id" && TypeOf(va) == EmbeddedDocument {
        if va != vb { return Some(Divergence(child, IdsDiffer)); }
        continue;
      }
      assert va == FieldOf(a, key);
      d := CompareRawValue(child, va, vb, false);
      if d.Some? { return; }
    }
    d := None;
  }

  method CompareArrayValue(path: string, a: Value, b: Value) returns (d: Option<Divergence>)
    requires TypeOf(a) == TypeOf(b) == Array
    ensures d == CompareValues(path, a, b, false)
    decreases a, 0
  {
    if a.BadArr? || b.BadArr? { return Some(Divergence(path, MalformedArray)); }
    if |a.items| != |b.items| { return Some(Divergence(path, LengthsDiffer)); }
    for i := 0 to |a.items|
      invariant CompareItems(path, a, b, 0) == CompareItems(path, a, b, i)
    {
      d := CompareRawValue(ItemPath(path, i), a.items[i], b.items[i], false);
      if d.Some? { return; }
    }
    d := None;
  }

  // ---------------------------------------------------------------- what equality means

  /** A value with the order of fields, and shadowed fields, forgotten. */
  datatype Normal =
    | NormalDoc(fields: map<string, Normal>)
    | NormalArr(items: seq<Normal>)
    | NormalLeaf(code: int, bytes: seq<int>)
    | Exact(value: Value)

  ghost function NormalOf(v: Value, root: bool): Normal
    decreases v, 1
  {
    match v
    case Doc(fields) => NormalDoc(map k | k in FieldMap(fields) :: NormalField(v, k, root))
    case Arr(items) => NormalArr(seq(|items|, i requires 0 <= i < |items| => NormalOf(items[i], false)))
    case Leaf(code, bytes) => NormalLeaf(code, bytes)
    case _ => Exact(v)
  }

  ghost function NormalField(v: Value, key: string, root: bool): Normal
    requires v.Doc? && key in FieldMap(v.fields)
    decreases v, 0
  {
    if ExactId(root, key, FieldOf(v, key)) then Exact(FieldOf(v, key)) else NormalOf(FieldOf(v, key), false)
  }

  /** No malformed document or array is met; the inside of an exact _id is not looked at. */
  ghost predicate Readable(v: Value, root: bool)
    decreases v, 1
  {
    match v
    case Doc(fields) => forall k :: k in FieldMap(fields) ==> ReadableField(v, k, root)
    case Arr(items) => forall i :: 0 <= i < |items| ==> Readable(items[i], false)
    case Leaf(_, _) => true
    case _ => false
  }

  ghost predicate ReadableField(v: Value, key: string, root: bool)
    requires v.Doc? && key in FieldMap(v.fields)
    decreases v, 0
  {
    ExactId(root, key, FieldOf(v, key)) || Readable(FieldOf(v, key), false)
  }

  ghost predicate FieldClean(path: string, a: Value, b: Value, key: string, root: bool)
    requires a.Doc? && b.Doc?
  {
    CompareField(path + "." + key, a, b, key, root).None?
  }

  lemma FieldsStep(path: string, a: Value, b: Value, keys: seq<string>, root: bool)
    requires a.Doc? && b.Doc? && keys != []
    ensures CompareFields(path, a, b, keys, root).None? <==>
            FieldClean(path, a, b, keys[0], root) && CompareFields(path, a, b, keys[1..], root).None?
  {
  }

  lemma {:induction false} FieldsAgree(path: string, a: Value, b: Value, keys: seq<string>, root: bool)
    requires a.Doc? && b.Doc?
    ensures CompareFields(path, a, b, keys, root).None? <==> forall k :: k in keys ==> FieldClean(path, a, b, k, root)
  {
    if keys != [] {
      FieldsStep(path, a, b, keys, root);
      FieldsAgree(path, a, b, keys[1..], root);
      assert keys == [keys[0]] + keys[1..];
    }
  }

  lemma ItemsStep(path: string, a: Value, b: Value, i: nat)
    requires a.Arr? && b.Arr? && |a.items| == |b.items| && i < |a.items|
    ensures CompareItems(path, a, b, i) ==
              var d := CompareItem(path, a, b, i); if d.Some? then d else CompareItems(path, a, b, i + 1)
  {
  }

  /** A comparison of items that stops, stops at one of them. */
  lemma {:induction false} FirstItem(path: string, a: Value, b: Value, i: nat) returns (k: nat)
    requires a.Arr? && b.Arr? && |a.items| == |b.items| && i <= |a.items| && CompareItems(path, a, b, i).Some?
    ensures i <= k < |a.items| && CompareItem(path, a, b, k) == CompareItems(path, a, b, i)
    decreases |a.items| - i
  {
    ItemsStep(path, a, b, i);
    if CompareItem(path, a, b, i).Some? {
      k := i;
    } else {
      k := FirstItem(path, a, b, i + 1);
    }
  }

  lemma {:induction false} ItemStops(path: string, a: Value, b: Value, i: nat, k: nat)
    requires a.Arr? && b.Arr? && |a.items| == |b.items| && i <= k < |a.items| && CompareItem(path, a, b, k).Some?
    ensures CompareItems(path, a, b, i).Some?
    decreases k - i
  {
    ItemsStep(path, a, b, i);
    if i < k { ItemStops(path, a, b, i + 1, k); }
  }

  lemma ItemsAgree(path: string, a: Value, b: Value, i: nat)
    requires a.Arr? && b.Arr? && |a.items| == |b.items| && i <= |a.items|
    ensures CompareItems(path, a, b, i).None? <==> forall j :: i <= j < |a.items| ==> CompareItem(path, a, b, j).None?
  {
    if CompareItems(path, a, b, i).Some? {
      var k := FirstItem(path, a, b, i);
      assert CompareItem(path, a, b, k).Some?;
    } else {
      forall j | i <= j < |a.items| ensures CompareItem(path, a, b, j).None? {
        if CompareItem(path, a, b, j).Some? { ItemStops(path, a, b, i, j); }
      }
    }
  }

  /** Both values can be read and have the same normal form. */
  ghost predicate Same(a: Value, b: Value, root: bool) {
    Readable(a, root) && Readable(b, root) && NormalOf(a, root) == NormalOf(b, root)
  }

  ghost predicate SameField(a: Value, b: Value, key: string, root: bool)
    requires a.Doc? && b.Doc?
  {
    && key in FieldMap(a.fields) && key in FieldMap(b.fields)
    && ReadableField(a, key, root) && ReadableField(b, key, root)
    && NormalField(a, key, root) == NormalField(b, key, root)
  }

  lemma SameDocuments(a: Value, b: Value, root: bool)
    requires a.Doc? && b.Doc?
    ensures Same(a, b, root) <==>
            forall k :: k in FieldMap(a.fields).Keys + FieldMap(b.fields).Keys ==> SameField(a, b, k, root)
  {
    var keys := FieldMap(a.fields).Keys + FieldMap(b.fields).Keys;
    if Same(a, b, root) {
      forall k | k in keys ensures SameField(a, b, k, root) { SameInEachField(a, b, k, root); }
    }
    if forall k :: k in keys ==> SameField(a, b, k, root) { SameFieldsSuffice(a, b, root); }
  }

  lemma SameInEachField(a: Value, b: Value, key: string, root: bool)
    requires a.Doc? && b.Doc? && Same(a, b, root) && key in FieldMap(a.fields).Keys + FieldMap(b.fields).Keys
    ensures SameField(a, b, key, root)
  {
    var na, nb := NormalOf(a, root).fields, NormalOf(b, root).fields;
    assert na.Keys == FieldMap(a.fields).Keys && nb.Keys == FieldMap(b.fields).Keys;
    assert key in na && key in nb && na[key] == nb[key];
  }

  lemma SameFieldsSuffice(a: Value, b: Value, root: bool)
    requires a.Doc? && b.Doc?
    requires forall k :: k in FieldMap(a.fields).Keys + FieldMap(b.fields).Keys ==> SameField(a, b, k, root)
    ensures Same(a, b, root)
  {
    assert forall k :: k in FieldMap(a.fields) ==> SameField(a, b, k, root);
    assert forall k :: k in FieldMap(b.fields) ==> SameField(a, b, k, root);
    assert NormalOf(a, root).fields == NormalOf(b, root).fields;
  }

  lemma SameArrays(a: Value, b: Value, root: bool)
    requires a.Arr? && b.Arr?
    ensures Same(a, b, root) <==>
            |a.items| == |b.items| && forall i :: 0 <= i < |a.items| ==> Same(a.items[i], b.items[i], false)
  {
    var na, nb := NormalOf(a, root).items, NormalOf(b, root).items;
    if Same(a, b, root) {
      forall i | 0 <= i < |a.items| ensures Same(a.items[i], b.items[i], false) { assert na[i] == nb[i]; }
    }
    if |a.items| == |b.items| && forall i :: 0 <= i < |a.items| ==> Same(a.items[i], b.items[i], false) {
      assert forall i :: 0 <= i < |na| ==> na[i] == nb[i];
      assert na == nb;
    }
  }

  lemma NormalKeepsType(a: Value, b: Value)
    requires NormalOf(a, false) == NormalOf(b, false)
    ensures TypeOf(a) == TypeOf(b)
  {
  }

  /** Fields agree exactly when their values do; but an embedded _id at the root must be the very same. */
  lemma FieldsCompared(a: Value, b: Value, key: string, root: bool)
    requires a.Doc? && b.Doc? && key in FieldMap(a.fields) && key in FieldMap(b.fields)
    ensures var x, y := FieldOf(a, key), FieldOf(b, key);
            SameField(a, b, key, root) <==>
              if root && key == "_id" && (x.Doc? || x.BadDoc?) then x == y else Same(x, y, false)
  {
    var x, y := FieldOf(a, key), FieldOf(b, key);
    if ExactId(root, key, x) != ExactId(root, key, y) {
      if NormalOf(x, false) == NormalOf(y, false) { NormalKeepsType(x, y); }
    }
  }

  /** Leaves are the same exactly when they are equal, and values of different types never are. */
  lemma SameLeaves(a: Value, b: Value, root: bool)
    ensures a.Leaf? || b.Leaf? ==> (Same(a, b, root) <==> a == b)
    ensures Same(a, b, root) ==> TypeOf(a) == TypeOf(b) && !a.BadDoc? && !a.BadArr?
  {
  }

  /** One field of the induction: given the comparison of the field's values, that of the field. */
  lemma FieldAgrees(child: string, a: Value, b: Value, key: string, root: bool)
    requires a.Doc? && b.Doc?
    requires key in FieldMap(a.fields) && key in FieldMap(b.fields) ==>
               (CompareValues(child, FieldOf(a, key), FieldOf(b, key), false).None? <==>
                Same(FieldOf(a, key), FieldOf(b, key), false))
    ensures CompareField(child, a, b, key, root).None? <==> SameField(a, b, key, root)
  {
    if key in FieldMap(a.fields) && key in FieldMap(b.fields) {
      var va, vb := FieldOf(a, key), FieldOf(b, key);
      if ExactId(root, key, va) != ExactId(root, key, vb) {
        assert NormalField(a, key, root) != NormalField(b, key, root) by {
          if NormalOf(va, false) == NormalOf(vb, false) { NormalKeepsType(va, vb); }
        }
        assert CompareField(child, a, b, key, root).Some?;
      }
    }
  }

  lemma ItemsDecide(path: string, a: Value, b: Value, root: bool)
    requires a.Arr? && b.Arr? && |a.items| == |b.items|
    requires forall i :: 0 <= i < |a.items| ==>
               (CompareItem(path, a, b, i).None? <==> Same(a.items[i], b.items[i], false))
    ensures CompareValues(path, a, b, root).None? <==>
            forall i :: 0 <= i < |a.items| ==> Same(a.items[i], b.items[i], false)
  {
    ItemsAgree(path, a, b, 0);
    assert CompareValues(path, a, b, root) == CompareItems(path, a, b, 0);
    if CompareValues(path, a, b, root).None? {
      forall i | 0 <= i < |a.items| ensures Same(a.items[i], b.items[i], false) {
        assert CompareItem(path, a, b, i).None?;
      }
    }
    if forall i :: 0 <= i < |a.items| ==> Same(a.items[i], b.items[i], false) {
      forall i | 0 <= i < |a.items| ensures CompareItem(path, a, b, i).None? {
        assert Same(a.items[i], b.items[i], false);
      }
    }
  }

  /** Comparison finds nothing exactly when both values can be read and have the same normal form. */
  lemma {:induction false} ComparesEqualIffSame(path: string, a: Value, b: Value, root: bool)
    ensures CompareValues(path, a, b, root).None? <==> Same(a, b, root)
    decreases a
  {
    if a.Doc? && b.Doc? {
      var keys := FieldMap(a.fields).Keys + FieldMap(b.fields).Keys;
      FieldsAgree(path, a, b, KeysInOrder(keys), root);
      SameDocuments(a, b, root);
      forall k | k in keys ensures FieldClean(path, a, b, k, root) <==> SameField(a, b, k, root) {
        if k in FieldMap(a.fields) && k in FieldMap(b.fields) {
          ComparesEqualIffSame(path + "." + k, FieldOf(a, k), FieldOf(b, k), false);
        }
        FieldAgrees(path + "." + k, a, b, k, root);
      }
    } else if a.Arr? && b.Arr? {
      SameArrays(a, b, root);
      if |a.items| == |b.items| {
        forall i | 0 <= i < |a.items|
          ensures CompareItem(path, a, b, i).None? <==> Same(a.items[i], b.items[i], false)
        {
          ComparesEqualIffSame(ItemPath(path, i), a.items[i], b.items[i], false);
        }
        ItemsDecide(path, a, b, root);
      }
    }
  }

  /** A value compares equal to itself exactly when it can be read: on malformed input even identical
      values are reported. */
  lemma ReflexiveIffReadable(path: string, a: Value, root: bool)
    ensures CompareValues(path, a, a, root).None? <==> Readable(a, root)
  {
    ComparesEqualIffSame(path, a, a, root);
  }

  lemma MalformedDiffersFromItself(path: string, bytes: seq<int>)
    ensures CompareValues(path, BadDoc(bytes), BadDoc(bytes), true) == Some(Divergence(path, MalformedDocument))
  {
  }

  /** On what can be read, comparing equal is symmetric and transitive as well. */
  lemma EqualityIsEquivalence(path: string, a: Value, b: Value, c: Value, root: bool)
    ensures CompareValues(path, a, b, root).None? <==> CompareValues(path, b, a, root).None?
    ensures CompareValues(path, a, b, root).None? && CompareValues(path, b, c, root).None? ==>
            CompareValues(path, a, c, root).None?
  {
    ComparesEqualIffSame(path, a, b, root);
    ComparesEqualIffSame(path, b, a, root);
    ComparesEqualIffSame(path, b, c, root);
    ComparesEqualIffSame(path, a, c, root);
  }

  // ---------------------------------------------------------------- field order

  ghost predicate DistinctKeys(fields: seq<Field>) {
    forall i, j :: 0 <= i < j < |fields| ==> fields[i].key != fields[j].key
  }

  lemma {:induction false} FieldMapHolds(fields: seq<Field>, f: Field)
    requires DistinctKeys(fields)
    ensures f in fields <==> f.key in FieldMap(fields) && FieldMap(fields)[f.key] == f.value
  {
    if fields != [] {
      var k := |fields| - 1;
      assert fields == fields[..k] + [fields[k]];
      FieldMapHolds(fields[..k], f);
      FieldMapHolds(fields[..k], fields[k]);
      if f in fields[..k] {
        var i :| 0 <= i < k && fields[i] == f;
        assert fields[i].key != fields[k].key;
      }
    }
  }

  lemma FieldMapIncluded(a: seq<Field>, b: seq<Field>)
    requires DistinctKeys(a) && DistinctKeys(b) && multiset(a) == multiset(b)
    ensures forall k :: k in FieldMap(a) ==> k in FieldMap(b) && FieldMap(b)[k] == FieldMap(a)[k]
  {
    forall k | k in FieldMap(a) ensures k in FieldMap(b) && FieldMap(b)[k] == FieldMap(a)[k] {
      var f := Field(k, FieldMap(a)[k]);
      FieldMapHolds(a, f);
      FieldMapHolds(b, f);
      assert f in multiset(a);
    }
  }

  /** A document and any reordering of its fields have the same normal form. */
  lemma ReorderingIsInvisible(a: seq<Field>, b: seq<Field>, root: bool)
    requires DistinctKeys(a) && DistinctKeys(b) && multiset(a) == multiset(b)
    ensures NormalOf(Doc(a), root) == NormalOf(Doc(b), root)
  {
    FieldMapIncluded(a, b);
    FieldMapIncluded(b, a);
    SameMapSameNormal(a, b, root);
  }

  lemma NormalEntry(fields: seq<Field>, key: string, root: bool)
    requires key in FieldMap(fields)
    ensures var n := NormalOf(Doc(fields), root);
            key in n.fields && n.fields[key] == NormalField(Doc(fields), key, root)
  {
  }

  lemma SameMapSameNormal(a: seq<Field>, b: seq<Field>, root: bool)
    requires FieldMap(a) == FieldMap(b)
    ensures NormalOf(Doc(a), root) == NormalOf(Doc(b), root)
  {
    var na, nb := NormalOf(Doc(a), root).fields, NormalOf(Doc(b), root).fields;
    forall k | k in FieldMap(a) ensures k in na && k in nb && na[k] == nb[k] {
      NormalEntry(a, k, root);
      NormalEntry(b, k, root);
      assert FieldOf(Doc(a), k) == FieldOf(Doc(b), k);
    }
    assert na.Keys == FieldMap(a).Keys == nb.Keys;
    assert na == nb;
  }

  // ---------------------------------------------------------------- swapping the servers

  /** Both comparisons stop at the same path, or neither stops. */
  predicate SamePath(d: Option<Divergence>, e: Option<Divergence>) {
    (d.Some? <==> e.Some?) && (d.Some? ==> d.value.path == e.value.path)
  }

  lemma {:induction false} SwapFields(path: string, a: Value, b: Value, keys: seq<string>, root: bool)
    requires a.Doc? && b.Doc?
    requires forall k :: k in keys ==>
               SamePath(CompareField(path + "." + k, a, b, k, root), CompareField(path + "." + k, b, a, k, root))
    ensures SamePath(CompareFields(path, a, b, keys, root), CompareFields(path, b, a, keys, root))
  {
    if keys != [] { SwapFields(path, a, b, keys[1..], root); }
  }

  lemma {:induction false} SwapItems(path: string, a: Value, b: Value, i: nat)
    requires a.Arr? && b.Arr? && |a.items| == |b.items| && i <= |a.items|
    requires forall j :: i <= j < |a.items| ==>
               SamePath(CompareItem(path, a, b, j), CompareItem(path, b, a, j))
    ensures SamePath(CompareItems(path, a, b, i), CompareItems(path, b, a, i))
    decreases |a.items| - i
  {
    if i < |a.items| { SwapItems(path, a, b, i + 1); }
  }

  /** A comparison that stops, stops at its path or below; a field that stops at once stops at its own path. */
  lemma SwapField(child: string, a: Value, b: Value, key: string, root: bool)
    requires a.Doc? && b.Doc?
    requires key in FieldMap(a.fields) && key in FieldMap(b.fields) ==>
               SamePath(CompareValues(child, FieldOf(a, key), FieldOf(b, key), false),
                        CompareValues(child, FieldOf(b, key), FieldOf(a, key), false))
    ensures SamePath(CompareField(child, a, b, key, root), CompareField(child, b, a, key, root))
  {
  }

  /** Swapping the two servers reports a divergence at the same path. */
  lemma {:induction false} SwapReportsSamePath(path: string, a: Value, b: Value, root: bool)
    ensures SamePath(CompareValues(path, a, b, root), CompareValues(path, b, a, root))
    decreases a
  {
    if a.Doc? && b.Doc? {
      var keys := FieldMap(a.fields).Keys + FieldMap(b.fields).Keys;
      assert FieldMap(b.fields).Keys + FieldMap(a.fields).Keys == keys;
      forall k | k in KeysInOrder(keys)
        ensures SamePath(CompareField(path + "." + k, a, b, k, root), CompareField(path + "." + k, b, a, k, root))
      {
        if k in FieldMap(a.fields) && k in FieldMap(b.fields) {
          SwapReportsSamePath(path + "." + k, FieldOf(a, k), FieldOf(b, k), false);
        }
        SwapField(path + "." + k, a, b, k, root);
      }
      SwapFields(path, a, b, KeysInOrder(keys), root);
    } else if a.Arr? && b.Arr? && |a.items| == |b.items| {
      forall j | 0 <= j < |a.items|
        ensures SamePath(CompareItem(path, a, b, j), CompareItem(path, b, a, j))
      {
        SwapReportsSamePath(ItemPath(path, j), a.items[j], b.items[j], false);
      }
      SwapItems(path, a, b, 0);
    }
  }

  // ---------------------------------------------------------------- what a divergence points at

  datatype Step = Key(name: string) | Index(i: nat)

  /** The value a path leads to, if there is one. */
  function Locate(v: Value, steps: seq<Step>): Option<Value> {
    if steps == [] then Some(v)
    else match steps[0]
      case Key(name) => if v.Doc? && name in FieldMap(v.fields) then Locate(FieldOf(v, name), steps[1..]) else None
      case Index(i) => if v.Arr? && i < |v.items| then Locate(v.items[i], steps[1..]) else None
  }

  function Render(steps: seq<Step>): string {
    if steps == [] then ""
    else (match steps[0] case Key(name) => "." + name case Index(i) => ItemPath("", i)) + Render(steps[1..])
  }

  /** What a detail says about the values found at its path. */
  predicate Explains(detail: Detail, a: Option<Value>, b: Option<Value>) {
    match detail
    case MissingOnSecond => a.Some? && b.None?
    case MissingOnFirst => a.None? && b.Some?
    case OnlyOn(_) => false
    case _ => a.Some? && b.Some? && ExplainsPair(detail, a.value, b.value)
  }

  predicate ExplainsPair(detail: Detail, x: Value, y: Value) {
    match detail
    case TypesDiffer => TypeOf(x) != TypeOf(y)
    case MalformedDocument => TypeOf(x) == TypeOf(y) == EmbeddedDocument && (x.BadDoc? || y.BadDoc?)
    case MalformedArray => TypeOf(x) == TypeOf(y) == Array && (x.BadArr? || y.BadArr?)
    case LengthsDiffer => x.Arr? && y.Arr? && |x.items| != |y.items|
    case ValuesDiffer => x.Leaf? && y.Leaf? && x.code == y.code && x.bytes != y.bytes
    case IdsDiffer => TypeOf(x) == EmbeddedDocument && x != y
    case _ => false
  }

  ghost predicate PointsAt(d: Option<Divergence>, path: string, a: Value, b: Value, steps: seq<Step>) {
    d.Some? && d.value.path == path + Render(steps) && Explains(d.value.detail, Locate(a, steps), Locate(b, steps))
  }

  lemma StepInto(d: Option<Divergence>, path: string, step: Step, a: Value, b: Value, x: Value, y: Value,
                 rest: seq<Step>)
    requires Locate(a, [step]) == Some(x) && Locate(b, [step]) == Some(y)
    requires PointsAt(d, path + Render([step]), x, y, rest)
    ensures PointsAt(d, path, a, b, [step] + rest)
  {
    LocateInto(a, step, x, rest);
    LocateInto(b, step, y, rest);
    RenderInto(path, step, rest);
  }

  lemma LocateInto(v: Value, step: Step, x: Value, rest: seq<Step>)
    requires Locate(v, [step]) == Some(x)
    ensures Locate(v, [step] + rest) == Locate(x, rest)
  {
    assert ([step] + rest)[1..] == rest && [step][1..] == [];
  }

  lemma RenderInto(path: string, step: Step, rest: seq<Step>)
    ensures path + Render([step] + rest) == path + Render([step]) + Render(rest)
  {
    assert ([step] + rest)[1..] == rest && [step][1..] == [];
    Associative(path, Render([step]), Render(rest));
  }

  lemma Associative(a: string, b: string, c: string)
    ensures a + (b + c) == a + b + c
  {
  }

  /** A reported divergence is real: its path leads to values, or to one missing value, that differ the
      way its detail says. */
  lemma {:induction false} DivergenceIsReal(path: string, a: Value, b: Value, root: bool) returns (steps: seq<Step>)
    requires CompareValues(path, a, b, root).Some?
    ensures PointsAt(CompareValues(path, a, b, root), path, a, b, steps)
    decreases a, 1
  {
    if a.Doc? && b.Doc? {
      var keys := KeysInOrder(FieldMap(a.fields).Keys + FieldMap(b.fields).Keys);
      var i := FirstAmong(path, a, b, keys, root);
      var key := keys[i];
      assert key in keys;
      steps := FieldIsReal(path, a, b, key, root);
    } else if a.Arr? && b.Arr? && |a.items| == |b.items| {
      var k := FirstItem(path, a, b, 0);
      steps := ItemIsReal(path, a, b, k);
    } else {
      steps := [];
      HereIsReal(path, a, b, root);
    }
  }

  lemma HereIsReal(path: string, a: Value, b: Value, root: bool)
    requires CompareValues(path, a, b, root).Some?
    requires !(a.Doc? && b.Doc?) && !(a.Arr? && b.Arr? && |a.items| == |b.items|)
    ensures PointsAt(CompareValues(path, a, b, root), path, a, b, [])
  {
    assert path + "" == path;
  }

  lemma {:induction false} ItemIsReal(path: string, a: Value, b: Value, k: nat) returns (steps: seq<Step>)
    requires a.Arr? && b.Arr? && |a.items| == |b.items| && k < |a.items| && CompareItem(path, a, b, k).Some?
    ensures PointsAt(CompareItem(path, a, b, k), path, a, b, steps)
    decreases a, 0
  {
    var step := Index(k);
    assert [step][1..] == [] && ItemPath(path, k) == path + Render([step]);
    var rest := DivergenceIsReal(ItemPath(path, k), a.items[k], b.items[k], false);
    StepInto(CompareItem(path, a, b, k), path, step, a, b, a.items[k], b.items[k], rest);
    steps := [step] + rest;
  }

  lemma {:induction false} FieldIsReal(path: string, a: Value, b: Value, key: string, root: bool)
    returns (steps: seq<Step>)
    requires a.Doc? && b.Doc? && key in FieldMap(a.fields).Keys + FieldMap(b.fields).Keys
    requires CompareField(path + "." + key, a, b, key, root).Some?
    ensures PointsAt(CompareField(path + "." + key, a, b, key, root), path, a, b, steps)
    decreases a, 0
  {
    var child := path + "." + key;
    var step := Key(key);
    assert [step][1..] == [] && child == path + Render([step]);
    steps := [step];
    if key in FieldMap(a.fields) && key in FieldMap(b.fields) {
      var x, y := FieldOf(a, key), FieldOf(b, key);
      if !ExactId(root, key, x) {
        var rest := DivergenceIsReal(child, x, y, false);
        StepInto(CompareField(child, a, b, key, root), path, step, a, b, x, y, rest);
        steps := [step] + rest;
      }
    }
  }

  // ---------------------------------------------------------------- the first divergence

  lemma {:induction false} FirstAmong(path: string, a: Value, b: Value, keys: seq<string>, root: bool)
    returns (i: nat)
    requires a.Doc? && b.Doc? && CompareFields(path, a, b, keys, root).Some?
    ensures i < |keys|
    ensures CompareFields(path, a, b, keys, root) == CompareField(path + "." + keys[i], a, b, keys[i], root)
    ensures !FieldClean(path, a, b, keys[i], root)
    ensures forall j :: 0 <= j < i ==> FieldClean(path, a, b, keys[j], root)
  {
    if FieldClean(path, a, b, keys[0], root) {
      var k := FirstAmong(path, a, b, keys[1..], root);
      i := k + 1;
      forall j | 0 <= j < i ensures FieldClean(path, a, b, keys[j], root) {
        assert j == 0 || keys[j] == keys[1..][j - 1];
      }
    } else {
      i := 0;
    }
  }

  lemma CleanIffSame(path: string, a: Value, b: Value, key: string, root: bool)
    requires a.Doc? && b.Doc?
    ensures FieldClean(path, a, b, key, root) <==> SameField(a, b, key, root)
  {
    if key in FieldMap(a.fields) && key in FieldMap(b.fields) {
      ComparesEqualIffSame(path + "." + key, FieldOf(a, key), FieldOf(b, key), false);
    }
    FieldAgrees(path + "." + key, a, b, key, root);
  }

  /** In increasing order, smaller keys stand earlier. */
  lemma SmallerIsEarlier(keys: seq<string>, i: nat, j: nat)
    requires Sorted(keys, LexLe) && i < |keys| && j < |keys| && keys[j] != keys[i] && LexLe(keys[j], keys[i])
    ensures j < i
  {
    if i < j { LexTotal(keys[i], keys[j]); }
  }

  lemma KeysBefore(path: string, a: Value, b: Value, keys: seq<string>, i: nat, k: string, root: bool)
    requires a.Doc? && b.Doc? && Sorted(keys, LexLe) && i < |keys| && k in keys && k != keys[i] && LexLe(k, keys[i])
    requires forall j :: 0 <= j < i ==> FieldClean(path, a, b, keys[j], root)
    ensures SameField(a, b, k, root)
  {
    var j :| 0 <= j < |keys| && keys[j] == k;
    SmallerIsEarlier(keys, i, j);
    assert FieldClean(path, a, b, keys[j], root);
    CleanIffSame(path, a, b, k, root);
  }

  lemma DocumentsStop(path: string, a: Value, b: Value, root: bool)
    requires a.Doc? && b.Doc?
    ensures CompareValues(path, a, b, root) ==
            CompareFields(path, a, b, KeysInOrder(FieldMap(a.fields).Keys + FieldMap(b.fields).Keys), root)
  {
  }

  /** What a comparison of documents reports is below the smallest key on which they do not agree. */
  lemma SmallestKeyIsReported(path: string, a: Value, b: Value, root: bool) returns (key: string)
    requires a.Doc? && b.Doc? && !Same(a, b, root)
    ensures key in FieldMap(a.fields) || key in FieldMap(b.fields)
    ensures !SameField(a, b, key, root)
    ensures forall k :: (k in FieldMap(a.fields) || k in FieldMap(b.fields)) && k != key && LexLe(k, key) ==>
                          SameField(a, b, k, root)
    ensures CompareValues(path, a, b, root) == CompareField(path + "." + key, a, b, key, root)
  {
    ComparesEqualIffSame(path, a, b, root);
    DocumentsStop(path, a, b, root);
    var union := FieldMap(a.fields).Keys + FieldMap(b.fields).Keys;
    var keys := KeysInOrder(union);
    KeysAreInOrder(union);
    var i := FirstAmong(path, a, b, keys, root);
    key := keys[i];
    assert key in keys;
    CleanIffSame(path, a, b, key, root);
    forall k | k in union && k != key && LexLe(k, key) ensures SameField(a, b, k, root) {
      KeysBefore(path, a, b, keys, i, k, root);
    }
  }

  ghost predicate ItemClean(path: string, a: Value, b: Value, i: nat)
    requires a.Arr? && b.Arr? && |a.items| == |b.items| && i < |a.items|
  {
    CompareItem(path, a, b, i).None?
  }

  lemma ItemIffSame(path: string, a: Value, b: Value, i: nat)
    requires a.Arr? && b.Arr? && |a.items| == |b.items| && i < |a.items|
    ensures ItemClean(path, a, b, i) <==> Same(a.items[i], b.items[i], false)
  {
    ComparesEqualIffSame(ItemPath(path, i), a.items[i], b.items[i], false);
  }

  lemma ItemsFrom(path: string, a: Value, b: Value, i: nat)
    requires a.Arr? && b.Arr? && |a.items| == |b.items| && i < |a.items|
    ensures ItemClean(path, a, b, i) ==> CompareItems(path, a, b, i) == CompareItems(path, a, b, i + 1)
    ensures !ItemClean(path, a, b, i) ==> CompareItems(path, a, b, i) == CompareItem(path, a, b, i)
  {
    ItemsStep(path, a, b, i);
  }

  lemma LeastItem(path: string, a: Value, b: Value) returns (k: nat)
    requires a.Arr? && b.Arr? && |a.items| == |b.items| && CompareItems(path, a, b, 0).Some?
    ensures k < |a.items| && CompareItem(path, a, b, k) == CompareItems(path, a, b, 0) && !ItemClean(path, a, b, k)
    ensures forall j :: 0 <= j < k ==> ItemClean(path, a, b, j)
  {
    k := 0;
    while k < |a.items| && ItemClean(path, a, b, k)
      invariant k <= |a.items| && CompareItems(path, a, b, k) == CompareItems(path, a, b, 0)
      invariant forall j :: 0 <= j < k ==> ItemClean(path, a, b, j)
    {
      ItemsFrom(path, a, b, k);
      k := k + 1;
    }
    if k < |a.items| { ItemsFrom(path, a, b, k); }
  }

  /** What a comparison of arrays of one length reports is below the first index at which they do not agree. */
  lemma FirstIndexIsReported(path: string, a: Value, b: Value, root: bool) returns (k: nat)
    requires a.Arr? && b.Arr? && |a.items| == |b.items| && !Same(a, b, root)
    ensures k < |a.items| && !Same(a.items[k], b.items[k], false)
    ensures forall j :: 0 <= j < k ==> Same(a.items[j], b.items[j], false)
    ensures CompareValues(path, a, b, root)
              == CompareValues(path + "[" + Digits(k) + "]", a.items[k], b.items[k], false)
  {
    ComparesEqualIffSame(path, a, b, root);
    k := LeastItem(path, a, b);
    ItemIffSame(path, a, b, k);
    forall j | 0 <= j < k ensures Same(a.items[j], b.items[j], false) {
      assert ItemClean(path, a, b, j);
      ItemIffSame(path, a, b, j);
    }
  }
}
