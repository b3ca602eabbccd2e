/** harness/statecompare.go: the divergences between two captured servers. */
module StateDiff {
  import opened Common
  import opened Orders
  import opened StateCompare

  datatype CollectionState = CollectionState(options: Value, indexes: map<string, Value>, documents: map<string, Value>)

  datatype DatabaseState = DatabaseState(collections: map<string, CollectionState>)

  datatype ServerState = ServerState(source: string, databases: map<string, DatabaseState>)

  // ---------------------------------------------------------------- stripIndexVersion

  /** Unmarshalling decodes everything, fields shadowed by a later one included. */
  predicate Decodable(v: Value)
    decreases v
  {
    match v
    case Doc(fields) => forall i :: 0 <= i < |fields| ==> Decodable(fields[i].value)
    case Arr(items) => forall i :: 0 <= i < |items| ==> Decodable(items[i])
    case Leaf(_, _) => true
    case _ => false
  }

  function WithoutVersion(fields: seq<Field>): seq<Field> {
    if fields == [] then []
    else
      var last := fields[|fields| - 1];
      WithoutVersion(fields[..|fields| - 1]) + if last.key == "v" then [] else [last]
  }

  /** An index without its top-level "v", or unchanged if some other field cannot be decoded. */
  function Stripped(index: Value): Value {
    if index.Doc? && Decodable(Doc(WithoutVersion(index.fields))) then Doc(WithoutVersion(index.fields)) else index
  }

  method StripIndexVersion(index: Value) returns (r: Value)
    ensures r == Stripped(index)
  {
    if !index.Doc? { return index; }
    var out: seq<Field> := [];
    for i := 0 to |index.fields|
      invariant out == WithoutVersion(index.fields[..i]) && Decodable(Doc(out))
    {
      var e := index.fields[i];
      assert index.fields[..i + 1][..i] == index.fields[..i];
      if e.key == "v" { continue; }
      if !Decodable(e.value) {
        UndecodableStays(index.fields, i);
        return index;
      }
      out := out + [e];
    }
    assert index.fields[..|index.fields|] == index.fields;
    r := Doc(out);
  }

  lemma UndecodableStays(fields: seq<Field>, i: nat)
    requires i < |fields| && fields[i].key != "v" && !Decodable(fields[i].value)
    ensures !Decodable(Doc(WithoutVersion(fields)))
  {
    InWithoutVersion(fields, fields[i]);
    var kept := WithoutVersion(fields);
    var j :| 0 <= j < |kept| && kept[j] == fields[i];
    assert !Decodable(kept[j].value);
  }

  lemma {:induction false} InWithoutVersion(fields: seq<Field>, f: Field)
    requires f in fields && f.key != "v"
    ensures f in WithoutVersion(fields)
  {
    var last := fields[|fields| - 1];
    assert fields == fields[..|fields| - 1] + [last];
    if f != last { InWithoutVersion(fields[..|fields| - 1], f); }
  }

  lemma FieldMapSnoc(fields: seq<Field>, f: Field)
    ensures FieldMap(fields + [f]) == FieldMap(fields)[f.key := f.value]
  {
    assert (fields + [f])[..|fields|] == fields;
  }

  lemma UpdateWithout(m: map<string, Value>, key: string, value: Value)
    ensures m[key := value] - {"v"} == if key == "v" then m - {"v"} else (m - {"v"})[key := value]
  {
  }

  /** Stripping removes exactly the key "v" from the field map. */
  lemma {:induction false} StrippedMap(fields: seq<Field>)
    ensures FieldMap(WithoutVersion(fields)) == FieldMap(fields) - {"v"}
  {
    if fields == [] {
      assert FieldMap(fields) == map[];
    } else {
      var init, last := fields[..|fields| - 1], fields[|fields| - 1];
      StrippedMap(init);
      UpdateWithout(FieldMap(init), last.key, last.value);
      if last.key != "v" {
        FieldMapSnoc(WithoutVersion(init), last);
      } else {
        assert WithoutVersion(fields) == WithoutVersion(init);
      }
    }
  }

  /** What can be decoded can be read; the fields that a later one shadows have to be decodable as well. */
  lemma {:induction false} DecodableIsReadable(v: Value, root: bool)
    requires Decodable(v)
    ensures Readable(v, root)
    decreases v
  {
    if v.Doc? {
      forall k | k in FieldMap(v.fields) ensures ReadableField(v, k, root) {
        var i :| 0 <= i < |v.fields| && v.fields[i] == Field(k, FieldMap(v.fields)[k]);
        assert Decodable(v.fields[i].value);
        DecodableIsReadable(FieldOf(v, k), false);
      }
    } else if v.Arr? {
      forall i | 0 <= i < |v.items| ensures Readable(v.items[i], false) { DecodableIsReadable(v.items[i], false); }
    }
  }

  /** An index is kept as it is when a field other than "v" cannot be decoded. */
  lemma UndecodableIndexIsKept(fields: seq<Field>, i: nat)
    requires i < |fields| && fields[i].key != "v" && !Decodable(fields[i].value)
    ensures Stripped(Doc(fields)) == Doc(fields)
  {
    UndecodableStays(fields, i);
  }

  /** Otherwise it loses its "v", decodable or not, and nothing else. */
  lemma IndexLosesVersion(fields: seq<Field>)
    requires forall f :: f in fields && f.key != "v" ==> Decodable(f.value)
    ensures Stripped(Doc(fields)).Doc? && FieldMap(Stripped(Doc(fields)).fields) == FieldMap(fields) - {"v"}
  {
    WithoutVersionIsPart(fields);
    assert Decodable(Doc(WithoutVersion(fields)));
    StrippedMap(fields);
  }

  lemma {:induction false} WithoutVersionIsPart(fields: seq<Field>)
    ensures forall f :: f in WithoutVersion(fields) ==> f in fields && f.key != "v"
  {
    if fields != [] { WithoutVersionIsPart(fields[..|fields| - 1]); }
  }

  /** A document without its version field. */
  function Rest(v: Value): (r: Value)
    requires v.Doc?
    ensures r.Doc?
  {
    Doc(WithoutVersion(v.fields))
  }

  lemma RestField(v: Value, key: string)
    requires v.Doc?
    ensures key in FieldMap(Rest(v).fields) <==> key in FieldMap(v.fields) && key != "v"
    ensures key in FieldMap(Rest(v).fields) ==> FieldOf(Rest(v), key) == FieldOf(v, key)
  {
    StrippedMap(v.fields);
  }

  lemma RestFieldsAgree(a: Value, b: Value, key: string)
    requires a.Doc? && b.Doc? && key != "v"
    ensures SameField(Rest(a), Rest(b), key, true) <==> SameField(a, b, key, true)
  {
    RestField(a, key);
    RestField(b, key);
    if key in FieldMap(a.fields) && key in FieldMap(b.fields) {
      OnlyTheFieldMatters(Rest(a), a, key);
      OnlyTheFieldMatters(Rest(b), b, key);
    }
  }

  lemma OnlyTheFieldMatters(v: Value, w: Value, key: string)
    requires v.Doc? && w.Doc? && key in FieldMap(v.fields) && key in FieldMap(w.fields)
             && FieldOf(v, key) == FieldOf(w, key)
    ensures NormalField(v, key, true) == NormalField(w, key, true)
    ensures ReadableField(v, key, true) <==> ReadableField(w, key, true)
  {
  }

  ghost function OtherKeys(a: Value, b: Value): set<string>
    requires a.Doc? && b.Doc?
  {
    (FieldMap(a.fields).Keys + FieldMap(b.fields).Keys) - {"v"}
  }

  lemma RestKeys(a: Value, b: Value)
    requires a.Doc? && b.Doc?
    ensures FieldMap(Rest(a).fields).Keys + FieldMap(Rest(b).fields).Keys == OtherKeys(a, b)
  {
    StrippedMap(a.fields);
    StrippedMap(b.fields);
  }

  /** Decodable indexes agree exactly when their fields other than "v" do. */
  lemma IndexesAgreeUpToVersion(path: string, a: Value, b: Value)
    requires a.Doc? && b.Doc? && Decodable(Rest(a)) && Decodable(Rest(b))
    ensures CompareValues(path, Stripped(a), Stripped(b), true).None? <==>
            forall k :: k in OtherKeys(a, b) ==> SameField(a, b, k, true)
  {
    ComparesEqualIffSame(path, Rest(a), Rest(b), true);
    RestSame(a, b);
  }

  lemma RestSame(a: Value, b: Value)
    requires a.Doc? && b.Doc?
    ensures Same(Rest(a), Rest(b), true) <==> forall k :: k in OtherKeys(a, b) ==> SameField(a, b, k, true)
  {
    SameDocuments(Rest(a), Rest(b), true);
    RestKeys(a, b);
    forall k | k in OtherKeys(a, b) ensures SameField(Rest(a), Rest(b), k, true) <==> SameField(a, b, k, true) {
      RestFieldsAgree(a, b, k);
    }
  }

  // ---------------------------------------------------------------- divergences, key by key

  /** The divergences under each key, in the order of the keys. */
  ghost function Collect(keys: seq<string>, under: string -> seq<Divergence>): seq<Divergence> {
    if keys == [] then [] else Collect(keys[..|keys| - 1], under) + under(keys[|keys| - 1])
  }

  lemma CollectStep(keys: seq<string>, i: nat, under: string -> seq<Divergence>)
    requires i < |keys|
    ensures Collect(keys[..i + 1], under) == Collect(keys[..i], under) + under(keys[i])
  {
    assert keys[..i + 1][..i] == keys[..i];
  }

  lemma {:induction false} CollectNothing(keys: seq<string>, under: string -> seq<Divergence>)
    ensures Collect(keys, under) == [] <==> forall k :: k in keys ==> under(k) == []
  {
    if keys != [] {
      CollectNothing(keys[..|keys| - 1], under);
      assert keys == keys[..|keys| - 1] + [keys[|keys| - 1]];
    }
  }

  function AsList(d: Option<Divergence>): seq<Divergence> {
    if d.Some? then [d.value] else []
  }

  /** A thing present on one side only. */
  function OneSided<V>(path: string, want: map<string, V>, got: map<string, V>, key: string, wantSrc: string,
                       gotSrc: string): seq<Divergence> {
    if key !in got then [Divergence(path, OnlyOn(wantSrc))]
    else if key !in want then [Divergence(path, OnlyOn(gotSrc))]
    else []
  }

  /** How an _id is rendered, and the _id a lookup finds in bytes that cannot be split into fields. */
  datatype IdReader = IdReader(render: Value -> string, salvage: seq<int> -> Option<Value>)

  /** How an _id is shown in a path. */
  function DescribeId(a: Option<Value>, b: Option<Value>, ids: IdReader): string {
    if a.Some? && FirstId(a.value, ids).Some? then ids.render(FirstId(a.value, ids).value)
    else if b.Some? && FirstId(b.value, ids).Some? then ids.render(FirstId(b.value, ids).value)
    else "<unknown>"
  }

  function FirstId(v: Value, ids: IdReader): Option<Value> {
    match v
    case Doc(fields) => FirstNamed(fields, "_id")
    case BadDoc(bytes) => ids.salvage(bytes)
    case _ => None
  }

  function FirstNamed(fields: seq<Field>, key: string): Option<Value> {
    if fields == [] then None
    else if fields[0].key == key then Some(fields[0].value)
    else FirstNamed(fields[1..], key)
  }

  /** Field i is the first one with this key. */
  predicate FirstNamedAt(fields: seq<Field>, key: string, i: nat) {
    i < |fields| && fields[i].key == key && forall k :: 0 <= k < i ==> fields[k].key != key
  }

  /** A lookup finds the value of the first field with the key, and nothing exactly when there is none. */
  lemma {:induction false} LookupFindsFirst(fields: seq<Field>, key: string)
    ensures FirstNamed(fields, key).None? <==> forall i :: 0 <= i < |fields| ==> fields[i].key != key
    ensures forall i: nat :: FirstNamedAt(fields, key, i) ==> FirstNamed(fields, key) == Some(fields[i].value)
  {
    if fields != [] && fields[0].key != key {
      LookupFindsFirst(fields[1..], key);
      assert forall i :: 0 < i < |fields| ==> fields[i] == fields[1..][i - 1];
      forall i: nat | FirstNamedAt(fields, key, i) ensures FirstNamed(fields, key) == Some(fields[i].value) {
        assert i > 0 && FirstNamedAt(fields[1..], key, i - 1);
      }
    }
  }

  /** Nothing that a lookup of the _id would find. */
  ghost predicate WithoutId(side: Option<Value>) {
    side.None? || (side.value.Doc? && forall i :: 0 <= i < |side.value.fields| ==> side.value.fields[i].key != "_id")
  }

  /** The _id shown is the first one of the first side that has one. */
  lemma IdShown(want: Option<Value>, got: Option<Value>, ids: IdReader, i: nat)
    ensures want.Some? && want.value.Doc? && FirstNamedAt(want.value.fields, "_id", i) ==>
              DescribeId(want, got, ids) == ids.render(want.value.fields[i].value)
    ensures WithoutId(want) && got.Some? && got.value.Doc? && FirstNamedAt(got.value.fields, "_id", i) ==>
              DescribeId(want, got, ids) == ids.render(got.value.fields[i].value)
    ensures WithoutId(want) && WithoutId(got) ==> DescribeId(want, got, ids) == "<unknown>"
  {
    if want.Some? && want.value.Doc? { LookupFindsFirst(want.value.fields, "_id"); }
    if got.Some? && got.value.Doc? { LookupFindsFirst(got.value.fields, "_id"); }
  }

  function At(m: map<string, Value>, key: string): Option<Value> {
    if key in m then Some(m[key]) else None
  }

  ghost function IndexDiff(ns: string, want: map<string, Value>, got: map<string, Value>, wantSrc: string,
                           gotSrc: string)
    : string -> seq<Divergence>
  {
    name =>
      var path := ns + " index " + name;
      if name in want && name in got then AsList(CompareValues(path, Stripped(want[name]), Stripped(got[name]), true))
      else OneSided(path, want, got, name, wantSrc, gotSrc)
  }

  ghost function DocumentDiff(ns: string, want: map<string, Value>, got: map<string, Value>, wantSrc: string,
                              gotSrc: string, ids: IdReader): string -> seq<Divergence>
  {
    key =>
      var path := ns + " _id=" + DescribeId(At(want, key), At(got, key), ids);
      if key in want && key in got then AsList(CompareValues(path, want[key], got[key], true))
      else OneSided(path, want, got, key, wantSrc, gotSrc)
  }

  ghost function CollectionDiff(ns: string, want: CollectionState, got: CollectionState, wantSrc: string,
                                gotSrc: string, ids: IdReader): seq<Divergence>
  {
    AsList(CompareValues(ns + " options", want.options, got.options, true))
    + Collect(KeysInOrder(want.indexes.Keys + got.indexes.Keys),
              IndexDiff(ns, want.indexes, got.indexes, wantSrc, gotSrc))
    + Collect(KeysInOrder(want.documents.Keys + got.documents.Keys),
              DocumentDiff(ns, want.documents, got.documents, wantSrc, gotSrc, ids))
  }

  ghost function NamedCollectionDiff(dbName: string, want: map<string, CollectionState>,
                                     got: map<string, CollectionState>,
                                     wantSrc: string, gotSrc: string, ids: IdReader): string -> seq<Divergence>
  {
    name =>
      if name in want && name in got
      then CollectionDiff(dbName + "." + name, want[name], got[name], wantSrc, gotSrc, ids)
      else OneSided(dbName + "." + name, want, got, name, wantSrc, gotSrc)
  }

  ghost function DatabaseDiff(dbName: string, want: DatabaseState, got: DatabaseState, wantSrc: string, gotSrc: string,
                              ids: IdReader): seq<Divergence>
  {
    Collect(KeysInOrder(want.collections.Keys + got.collections.Keys),
            NamedCollectionDiff(dbName, want.collections, got.collections, wantSrc, gotSrc, ids))
  }

  ghost function NamedDatabaseDiff(want: ServerState, got: ServerState,
                                   ids: IdReader): string -> seq<Divergence> {
    name =>
      if name in want.databases && name in got.databases
      then DatabaseDiff(name, want.databases[name], got.databases[name], want.source, got.source, ids)
      else OneSided(name, want.databases, got.databases, name, want.source, got.source)
  }

  ghost function ServerDiff(want: ServerState, got: ServerState, ids: IdReader): seq<Divergence> {
    Collect(KeysInOrder(want.databases.Keys + got.databases.Keys), NamedDatabaseDiff(want, got, ids))
  }

  // ---------------------------------------------------------------- the loops

  method DiffServerState(want: ServerState, got: ServerState, ids: IdReader) returns (out: seq<Divergence>)
    ensures out == ServerDiff(want, got, ids)
  {
    out := [];
    var keys := SortedKeys(want.databases, got.databases);
    for i := 0 to |keys|
      invariant out == Collect(keys[..i], NamedDatabaseDiff(want, got, ids))
    {
      var dbName := keys[i];
      CollectStep(keys, i, NamedDatabaseDiff(want, got, ids));
      if dbName !in got.databases {
        out := out + [Divergence(dbName, OnlyOn(want.source))];
      } else if dbName !in want.databases {
        out := out + [Divergence(dbName, OnlyOn(got.source))];
      } else {
        var more := DiffDatabase(dbName, want.databases[dbName], got.databases[dbName], want.source, got.source, ids);
        out := out + more;
      }
    }
    assert keys[..|keys|] == keys;
  }

  method DiffDatabase(dbName: string, want: DatabaseState, got: DatabaseState, wantSrc: string, gotSrc: string,
                      ids: IdReader)
    returns (out: seq<Divergence>)
    ensures out == DatabaseDiff(dbName, want, got, wantSrc, gotSrc, ids)
  {
    out := [];
    var keys := SortedKeys(want.collections, got.collections);
    ghost var under := NamedCollectionDiff(dbName, want.collections, got.collections, wantSrc, gotSrc, ids);
    for i := 0 to |keys|
      invariant out == Collect(keys[..i], under)
    {
      var name := keys[i];
      var ns := dbName + "." + name;
      CollectStep(keys, i, under);
      if name !in got.collections {
        out := out + [Divergence(ns, OnlyOn(wantSrc))];
      } else if name !in want.collections {
        out := out + [Divergence(ns, OnlyOn(gotSrc))];
      } else {
        var more := DiffCollection(ns, want.collections[name], got.collections[name], wantSrc, gotSrc, ids);
        out := out + more;
      }
    }
    assert keys[..|keys|] == keys;
  }

  method DiffCollection(ns: string, want: CollectionState, got: CollectionState, wantSrc: string, gotSrc: string,
                        ids: IdReader)
    returns (out: seq<Divergence>)
    ensures out == CollectionDiff(ns, want, got, wantSrc, gotSrc, ids)
  {
    var d := CompareRawDocuments(ns + " options", want.options, got.options);
    var indexes := DiffIndexes(ns, want.indexes, got.indexes, wantSrc, gotSrc);
    var documents := DiffDocuments(ns, want.documents, got.documents, wantSrc, gotSrc, ids);
    out := AsList(d) + indexes + documents;
  }

  /** The loop of diffCollection over index names. */
  method DiffIndexes(ns: string, want: map<string, Value>, got: map<string, Value>, wantSrc: string, gotSrc: string)
    returns (out: seq<Divergence>)
    ensures out == Collect(KeysInOrder(want.Keys + got.Keys), IndexDiff(ns, want, got, wantSrc, gotSrc))
  {
    out := [];
    var keys := SortedKeys(want, got);
    ghost var under := IndexDiff(ns, want, got, wantSrc, gotSrc);
    for i := 0 to |keys|
      invariant out == Collect(keys[..i], under)
    {
      var name := keys[i];
      var path := ns + " index " + name;
      CollectStep(keys, i, under);
      if name !in got {
        out := out + [Divergence(path, OnlyOn(wantSrc))];
      } else if name !in want {
        out := out + [Divergence(path, OnlyOn(gotSrc))];
      } else {
        var w := StripIndexVersion(want[name]);
        var g := StripIndexVersion(got[name]);
        var d := CompareRawDocuments(path, w, g);
        if d.Some? { out := out + [d.value]; }
      }
    }
    assert keys[..|keys|] == keys;
  }

  /** The loop of diffCollection over document keys. */
  method DiffDocuments(ns: string, want: map<string, Value>, got: map<string, Value>, wantSrc: string, gotSrc: string,
                       ids: IdReader)
    returns (out: seq<Divergence>)
    ensures out == Collect(KeysInOrder(want.Keys + got.Keys), DocumentDiff(ns, want, got, wantSrc, gotSrc, ids))
  {
    out := [];
    var keys := SortedKeys(want, got);
    ghost var under := DocumentDiff(ns, want, got, wantSrc, gotSrc, ids);
    for i := 0 to |keys|
      invariant out == Collect(keys[..i], under)
    {
      var key := keys[i];
      var path := ns + " _id=" + DescribeId(At(want, key), At(got, key), ids);
      CollectStep(keys, i, under);
      if key !in got {
        out := out + [Divergence(path, OnlyOn(wantSrc))];
      } else if key !in want {
        out := out + [Divergence(path, OnlyOn(gotSrc))];
      } else {
        var d := CompareRawDocuments(path, want[key], got[key]);
        if d.Some? { out := out + [d.value]; }
      }
    }
    assert keys[..|keys|] == keys;
  }

  // ---------------------------------------------------------------- agreement

  ghost predicate IndexesAgree(want: map<string, Value>, got: map<string, Value>) {
    want.Keys == got.Keys && forall k :: k in want ==> Same(Stripped(want[k]), Stripped(got[k]), true)
  }

  ghost predicate DocumentsAgree(want: map<string, Value>, got: map<string, Value>) {
    want.Keys == got.Keys && forall k :: k in want ==> Same(want[k], got[k], true)
  }

  ghost predicate CollectionsAgree(want: CollectionState, got: CollectionState) {
    Same(want.options, got.options, true) && IndexesAgree(want.indexes, got.indexes)
        && DocumentsAgree(want.documents, got.documents)
  }

  ghost predicate DatabasesAgree(want: DatabaseState, got: DatabaseState) {
    && want.collections.Keys == got.collections.Keys
    && forall k :: k in want.collections ==> CollectionsAgree(want.collections[k], got.collections[k])
  }

  /** The same databases, holding the same collections with the same options, indexes and documents. */
  ghost predicate ServersAgree(want: ServerState, got: ServerState) {
    && want.databases.Keys == got.databases.Keys
    && forall k :: k in want.databases ==> DatabasesAgree(want.databases[k], got.databases[k])
  }

  /** A key yields nothing exactly when both sides have it and agree on it. */
  ghost predicate Decides(under: string -> seq<Divergence>, want: set<string>, got: set<string>, agree: string -> bool,
                          key: string) {
    under(key) == [] <==> key in want && key in got && agree(key)
  }

  /** Nothing is collected exactly when every key is on both sides and yields nothing there. */
  lemma CollectExact(want: set<string>, got: set<string>, under: string -> seq<Divergence>, agree: string -> bool)
    requires forall k :: k in want + got ==> Decides(under, want, got, agree, k)
    ensures Collect(KeysInOrder(want + got), under) == [] <==> want == got && forall k :: k in want ==> agree(k)
  {
    CollectNothing(KeysInOrder(want + got), under);
    if Collect(KeysInOrder(want + got), under) == [] {
      assert forall k :: k in want + got ==> under(k) == [] && Decides(under, want, got, agree, k);
      assert want <= got && got <= want;
    }
  }

  lemma CollectionDiffExact(ns: string, want: CollectionState, got: CollectionState, wantSrc: string, gotSrc: string,
                            ids: IdReader)
    ensures CollectionDiff(ns, want, got, wantSrc, gotSrc, ids) == [] <==> CollectionsAgree(want, got)
  {
    ComparesEqualIffSame(ns + " options", want.options, got.options, true);
    IndexDiffExact(ns, want.indexes, got.indexes, wantSrc, gotSrc);
    DocumentDiffExact(ns, want.documents, got.documents, wantSrc, gotSrc, ids);
  }

  ghost function SameIndex(want: map<string, Value>, got: map<string, Value>): string -> bool {
    k => k in want && k in got && Same(Stripped(want[k]), Stripped(got[k]), true)
  }

  lemma IndexDiffExact(ns: string, want: map<string, Value>, got: map<string, Value>, wantSrc: string, gotSrc: string)
    ensures Collect(KeysInOrder(want.Keys + got.Keys), IndexDiff(ns, want, got, wantSrc, gotSrc)) == [] <==>
            IndexesAgree(want, got)
  {
    var under := IndexDiff(ns, want, got, wantSrc, gotSrc);
    forall k | k in want.Keys + got.Keys ensures Decides(under, want.Keys, got.Keys, SameIndex(want, got), k) {
      if k in want && k in got { ComparesEqualIffSame(ns + " index " + k, Stripped(want[k]), Stripped(got[k]), true); }
    }
    CollectExact(want.Keys, got.Keys, under, SameIndex(want, got));
    assert IndexesAgree(want, got) <==> want.Keys == got.Keys && forall k :: k in want.Keys ==> SameIndex(want, got)(k);
  }

  ghost function SameDocument(want: map<string, Value>, got: map<string, Value>): string -> bool {
    k => k in want && k in got && Same(want[k], got[k], true)
  }

  lemma DocumentDiffExact(ns: string, want: map<string, Value>, got: map<string, Value>, wantSrc: string,
                          gotSrc: string, ids: IdReader)
    ensures Collect(KeysInOrder(want.Keys + got.Keys), DocumentDiff(ns, want, got, wantSrc, gotSrc, ids)) == [] <==>
            DocumentsAgree(want, got)
  {
    var under := DocumentDiff(ns, want, got, wantSrc, gotSrc, ids);
    forall k | k in want.Keys + got.Keys ensures Decides(under, want.Keys, got.Keys, SameDocument(want, got), k) {
      if k in want && k in got {
        ComparesEqualIffSame(ns + " _id=" + DescribeId(At(want, k), At(got, k), ids), want[k], got[k], true);
      }
    }
    CollectExact(want.Keys, got.Keys, under, SameDocument(want, got));
    assert DocumentsAgree(want, got) <==>
           want.Keys == got.Keys && forall k :: k in want.Keys ==> SameDocument(want, got)(k);
  }

  ghost function SameCollection(want: DatabaseState, got: DatabaseState): string -> bool {
    k => k in want.collections && k in got.collections && CollectionsAgree(want.collections[k], got.collections[k])
  }

  lemma CollectionEntry(dbName: string, want: DatabaseState, got: DatabaseState, wantSrc: string, gotSrc: string,
                        ids: IdReader, name: string)
    requires name in want.collections || name in got.collections
    ensures Decides(NamedCollectionDiff(dbName, want.collections, got.collections, wantSrc, gotSrc, ids),
                    want.collections.Keys, got.collections.Keys, SameCollection(want, got), name)
  {
    if name in want.collections && name in got.collections {
      CollectionDiffExact(dbName + "." + name, want.collections[name], got.collections[name], wantSrc, gotSrc, ids);
    }
  }

  lemma DatabaseDiffExact(dbName: string, want: DatabaseState, got: DatabaseState, wantSrc: string, gotSrc: string,
                          ids: IdReader)
    ensures DatabaseDiff(dbName, want, got, wantSrc, gotSrc, ids) == [] <==> DatabasesAgree(want, got)
  {
    var w, g := want.collections.Keys, got.collections.Keys;
    var under := NamedCollectionDiff(dbName, want.collections, got.collections, wantSrc, gotSrc, ids);
    forall k | k in w + g ensures Decides(under, w, g, SameCollection(want, got), k) {
      CollectionEntry(dbName, want, got, wantSrc, gotSrc, ids, k);
    }
    CollectExact(w, g, under, SameCollection(want, got));
    assert DatabasesAgree(want, got) <==> w == g && forall k :: k in w ==> SameCollection(want, got)(k);
  }

  ghost function SameDatabase(want: ServerState, got: ServerState): string -> bool {
    k => k in want.databases && k in got.databases && DatabasesAgree(want.databases[k], got.databases[k])
  }

  lemma DatabaseEntry(want: ServerState, got: ServerState, ids: IdReader, name: string)
    requires name in want.databases || name in got.databases
    ensures Decides(NamedDatabaseDiff(want, got, ids), want.databases.Keys, got.databases.Keys,
                    SameDatabase(want, got), name)
  {
    if name in want.databases && name in got.databases {
      DatabaseDiffExact(name, want.databases[name], got.databases[name], want.source, got.source, ids);
    }
  }

  /** The report is empty exactly when the two servers agree. */
  lemma ServerDiffExact(want: ServerState, got: ServerState, ids: IdReader)
    ensures ServerDiff(want, got, ids) == [] <==> ServersAgree(want, got)
  {
    var w, g := want.databases.Keys, got.databases.Keys;
    var under := NamedDatabaseDiff(want, got, ids);
    forall k | k in w + g ensures Decides(under, w, g, SameDatabase(want, got), k) {
      DatabaseEntry(want, got, ids, k);
    }
    CollectExact(w, g, under, SameDatabase(want, got));
    assert ServersAgree(want, got) <==> w == g && forall k :: k in w ==> SameDatabase(want, got)(k);
  }

  // ---------------------------------------------------------------- what a report holds

  ghost predicate Yields(under: string -> seq<Divergence>, key: string, d: Divergence) {
    d in under(key)
  }

  /** Collected is what some key yields, and nothing else. */
  lemma {:induction false} InCollect(keys: seq<string>, under: string -> seq<Divergence>, d: Divergence)
    ensures d in Collect(keys, under) <==> exists k :: k in keys && Yields(under, k, d)
  {
    if keys != [] {
      var init, last := keys[..|keys| - 1], keys[|keys| - 1];
      assert keys == init + [last];
      InCollect(init, under, d);
      if d in Collect(keys, under) {
        if d in Collect(init, under) {
          var k :| k in init && Yields(under, k, d);
          assert k in keys;
        } else {
          assert Yields(under, last, d);
        }
      }
      forall k | k in keys && Yields(under, k, d) ensures d in Collect(keys, under) { assert k in init || k == last; }
    }
  }

  /** One side has something under this key that the other lacks, and d says which. */
  predicate Missing<V>(path: string, want: map<string, V>, got: map<string, V>, key: string, wantSrc: string,
                       gotSrc: string, d: Divergence)
  {
    || (key in want && key !in got && d == Divergence(path, OnlyOn(wantSrc)))
    || (key in got && key !in want && d == Divergence(path, OnlyOn(gotSrc)))
  }

  /** Two documents are not the same, and d leads to the place, below this path, where they differ. */
  ghost predicate Differs(path: string, a: Value, b: Value, d: Divergence) {
    && !Same(a, b, true)
    && CompareValues(path, a, b, true) == Some(d)
    && exists steps :: PointsAt(Some(d), path, a, b, steps)
  }

  lemma DiffersIff(path: string, a: Value, b: Value, d: Divergence)
    ensures Differs(path, a, b, d) <==> CompareValues(path, a, b, true) == Some(d)
  {
    ComparesEqualIffSame(path, a, b, true);
    if CompareValues(path, a, b, true) == Some(d) { var steps := DivergenceIsReal(path, a, b, true); }
  }

  /** Two documents that are not the same yield a divergence. */
  lemma DifferingYields(path: string, a: Value, b: Value) returns (d: Divergence)
    requires !Same(a, b, true)
    ensures Differs(path, a, b, d)
  {
    ComparesEqualIffSame(path, a, b, true);
    d := CompareValues(path, a, b, true).value;
    DiffersIff(path, a, b, d);
  }

  ghost predicate IndexFinding(ns: string, want: map<string, Value>, got: map<string, Value>, wantSrc: string,
                               gotSrc: string, name: string, d: Divergence)
  {
    var path := ns + " index " + name;
    || Missing(path, want, got, name, wantSrc, gotSrc, d)
    || (name in want && name in got && Differs(path, Stripped(want[name]), Stripped(got[name]), d))
  }

  ghost predicate DocumentFinding(ns: string, want: map<string, Value>, got: map<string, Value>, wantSrc: string,
                                  gotSrc: string, ids: IdReader, key: string, d: Divergence)
  {
    var path := ns + " _id=" + DescribeId(At(want, key), At(got, key), ids);
    || Missing(path, want, got, key, wantSrc, gotSrc, d)
    || (key in want && key in got && Differs(path, want[key], got[key], d))
  }

  ghost predicate CollectionFinding(ns: string, want: CollectionState, got: CollectionState, wantSrc: string,
                                    gotSrc: string, ids: IdReader, d: Divergence)
  {
    || Differs(ns + " options", want.options, got.options, d)
    || (exists name :: IndexFinding(ns, want.indexes, got.indexes, wantSrc, gotSrc, name, d))
    || (exists key :: DocumentFinding(ns, want.documents, got.documents, wantSrc, gotSrc, ids, key, d))
  }

  ghost predicate NamedCollectionFinding(dbName: string, want: map<string, CollectionState>,
                                         got: map<string, CollectionState>, wantSrc: string, gotSrc: string,
                                         ids: IdReader, name: string, d: Divergence)
  {
    var ns := dbName + "." + name;
    || Missing(ns, want, got, name, wantSrc, gotSrc, d)
    || (name in want && name in got && CollectionFinding(ns, want[name], got[name], wantSrc, gotSrc, ids, d))
  }

  ghost predicate DatabaseFinding(dbName: string, want: DatabaseState, got: DatabaseState, wantSrc: string,
                                  gotSrc: string, ids: IdReader, d: Divergence)
  {
    exists name ::
      NamedCollectionFinding(dbName, want.collections, got.collections, wantSrc, gotSrc, ids, name, d)
  }

  ghost predicate NamedDatabaseFinding(want: ServerState, got: ServerState, ids: IdReader, name: string, d: Divergence)
  {
    || Missing(name, want.databases, got.databases, name, want.source, got.source, d)
    || (name in want.databases && name in got.databases
        && DatabaseFinding(name, want.databases[name], got.databases[name], want.source, got.source, ids, d))
  }

  ghost predicate ServerFinding(want: ServerState, got: ServerState, ids: IdReader, d: Divergence) {
    exists name :: NamedDatabaseFinding(want, got, ids, name, d)
  }

  lemma IndexYields(ns: string, want: map<string, Value>, got: map<string, Value>, wantSrc: string, gotSrc: string,
                    name: string, d: Divergence)
    ensures name in want.Keys + got.Keys && Yields(IndexDiff(ns, want, got, wantSrc, gotSrc), name, d) <==>
            IndexFinding(ns, want, got, wantSrc, gotSrc, name, d)
  {
    if name in want && name in got { DiffersIff(ns + " index " + name, Stripped(want[name]), Stripped(got[name]), d); }
  }

  lemma IndexReport(ns: string, want: map<string, Value>, got: map<string, Value>, wantSrc: string, gotSrc: string,
                    d: Divergence)
    ensures d in Collect(KeysInOrder(want.Keys + got.Keys), IndexDiff(ns, want, got, wantSrc, gotSrc)) <==>
            exists name :: IndexFinding(ns, want, got, wantSrc, gotSrc, name, d)
  {
    var under := IndexDiff(ns, want, got, wantSrc, gotSrc);
    InCollect(KeysInOrder(want.Keys + got.Keys), under, d);
    forall k ensures k in want.Keys + got.Keys && Yields(under, k, d) <==>
      IndexFinding(ns, want, got, wantSrc, gotSrc, k, d)
    {
      IndexYields(ns, want, got, wantSrc, gotSrc, k, d);
    }
  }

  lemma DocumentYields(ns: string, want: map<string, Value>, got: map<string, Value>, wantSrc: string, gotSrc: string,
                       ids: IdReader, key: string, d: Divergence)
    ensures key in want.Keys + got.Keys && Yields(DocumentDiff(ns, want, got, wantSrc, gotSrc, ids), key, d) <==>
            DocumentFinding(ns, want, got, wantSrc, gotSrc, ids, key, d)
  {
    if key in want && key in got {
      DiffersIff(ns + " _id=" + DescribeId(At(want, key), At(got, key), ids), want[key], got[key], d);
    }
  }

  lemma DocumentReport(ns: string, want: map<string, Value>, got: map<string, Value>, wantSrc: string, gotSrc: string,
                       ids: IdReader, d: Divergence)
    ensures d in Collect(KeysInOrder(want.Keys + got.Keys), DocumentDiff(ns, want, got, wantSrc, gotSrc, ids)) <==>
            exists key :: DocumentFinding(ns, want, got, wantSrc, gotSrc, ids, key, d)
  {
    var under := DocumentDiff(ns, want, got, wantSrc, gotSrc, ids);
    InCollect(KeysInOrder(want.Keys + got.Keys), under, d);
    forall k ensures k in want.Keys + got.Keys && Yields(under, k, d) <==>
      DocumentFinding(ns, want, got, wantSrc, gotSrc, ids, k, d)
    {
      DocumentYields(ns, want, got, wantSrc, gotSrc, ids, k, d);
    }
  }

  /** The report on a collection: differing options, and every index and document that one side lacks or that
      differs, whatever else was found; nothing else. */
  lemma CollectionReport(ns: string, want: CollectionState, got: CollectionState, wantSrc: string, gotSrc: string,
                         ids: IdReader, d: Divergence)
    ensures d in CollectionDiff(ns, want, got, wantSrc, gotSrc, ids) <==>
            CollectionFinding(ns, want, got, wantSrc, gotSrc, ids, d)
  {
    DiffersIff(ns + " options", want.options, got.options, d);
    IndexReport(ns, want.indexes, got.indexes, wantSrc, gotSrc, d);
    DocumentReport(ns, want.documents, got.documents, wantSrc, gotSrc, ids, d);
  }

  lemma CollectionYields(dbName: string, want: map<string, CollectionState>, got: map<string, CollectionState>,
                         wantSrc: string, gotSrc: string, ids: IdReader, name: string, d: Divergence)
    ensures name in want.Keys + got.Keys
              && Yields(NamedCollectionDiff(dbName, want, got, wantSrc, gotSrc, ids), name, d) <==>
            NamedCollectionFinding(dbName, want, got, wantSrc, gotSrc, ids, name, d)
  {
    if name in want && name in got {
      CollectionReport(dbName + "." + name, want[name], got[name], wantSrc, gotSrc, ids, d);
    }
  }

  lemma DatabaseReport(dbName: string, want: DatabaseState, got: DatabaseState, wantSrc: string, gotSrc: string,
                       ids: IdReader, d: Divergence)
    ensures d in DatabaseDiff(dbName, want, got, wantSrc, gotSrc, ids) <==>
            DatabaseFinding(dbName, want, got, wantSrc, gotSrc, ids, d)
  {
    var w, g := want.collections, got.collections;
    var under := NamedCollectionDiff(dbName, w, g, wantSrc, gotSrc, ids);
    InCollect(KeysInOrder(w.Keys + g.Keys), under, d);
    forall k ensures k in w.Keys + g.Keys && Yields(under, k, d) <==>
      NamedCollectionFinding(dbName, w, g, wantSrc, gotSrc, ids, k, d)
    {
      CollectionYields(dbName, w, g, wantSrc, gotSrc, ids, k, d);
    }
  }

  lemma DatabaseYields(want: ServerState, got: ServerState, ids: IdReader, name: string, d: Divergence)
    ensures name in want.databases.Keys + got.databases.Keys && Yields(NamedDatabaseDiff(want, got, ids), name, d) <==>
            NamedDatabaseFinding(want, got, ids, name, d)
  {
    if name in want.databases && name in got.databases {
      DatabaseReport(name, want.databases[name], got.databases[name], want.source, got.source, ids, d);
    }
  }

  /** The report on two servers holds every such finding of every collection, every collection and database
      that one side lacks, and nothing else. */
  lemma ServerReport(want: ServerState, got: ServerState, ids: IdReader, d: Divergence)
    ensures d in ServerDiff(want, got, ids) <==> ServerFinding(want, got, ids, d)
  {
    var w, g := want.databases.Keys, got.databases.Keys;
    var under := NamedDatabaseDiff(want, got, ids);
    InCollect(KeysInOrder(w + g), under, d);
    forall k ensures k in w + g && Yields(under, k, d) <==> NamedDatabaseFinding(want, got, ids, k, d) {
      DatabaseYields(want, got, ids, k, d);
    }
  }

  // ---------------------------------------------------------------- once each, and in order

  ghost function Yielding(keys: set<string>, under: string -> seq<Divergence>): set<string> {
    set k | k in keys && under(k) != []
  }

  ghost function Members(keys: seq<string>): set<string> {
    set k | k in keys
  }

  /** Where no key yields more than one divergence, there are as many as there are keys that yield one. */
  lemma {:induction false} CollectSize(keys: seq<string>, under: string -> seq<Divergence>)
    requires forall k :: k in keys ==> |under(k)| <= 1
    requires forall i, j :: 0 <= i < j < |keys| ==> keys[i] != keys[j]
    ensures |Collect(keys, under)| == |Yielding(Members(keys), under)|
  {
    if keys == [] {
      assert Yielding(Members(keys), under) == {};
    } else {
      var init, last := keys[..|keys| - 1], keys[|keys| - 1];
      assert keys == init + [last];
      CollectSize(init, under);
      assert last !in init;
      assert Yielding(Members(keys), under) ==
             Yielding(Members(init), under) + if under(last) != [] then {last} else {};
    }
  }

  lemma OnceEach(r: seq<string>, keys: set<string>, i: nat, j: nat)
    requires multiset(r) == multiset(keys) && i < j < |r|
    ensures r[i] != r[j]
  {
    assert r == r[..j] + r[j..];
    assert r[..j][i] == r[i] && r[j..][0] == r[j];
    assert r[i] in multiset(r[..j]) && r[j] in multiset(r[j..]);
    assert multiset(r)[r[i]] == multiset(r[..j])[r[i]] + multiset(r[j..])[r[i]];
  }

  ghost function DifferingIndexes(want: map<string, Value>, got: map<string, Value>): set<string> {
    set k | k in want.Keys + got.Keys
            && !(k in want && k in got && Same(Stripped(want[k]), Stripped(got[k]), true))
  }

  ghost function DifferingDocuments(want: map<string, Value>, got: map<string, Value>): set<string> {
    set k | k in want.Keys + got.Keys && !(k in want && k in got && Same(want[k], got[k], true))
  }

  lemma CollectOnce(keys: set<string>, under: string -> seq<Divergence>)
    requires forall k :: k in keys ==> |under(k)| <= 1
    ensures |Collect(KeysInOrder(keys), under)| == |Yielding(keys, under)|
  {
    var r := KeysInOrder(keys);
    KeysAreInOrder(keys);
    forall i, j | 0 <= i < j < |r| ensures r[i] != r[j] { OnceEach(r, keys, i, j); }
    CollectSize(r, under);
    assert Members(r) == keys;
  }

  /** One divergence for differing options, one for every index and one for every document that differs or is
      on one side only. */
  lemma CollectionReportSize(ns: string, want: CollectionState, got: CollectionState, wantSrc: string, gotSrc: string,
                             ids: IdReader)
    ensures |CollectionDiff(ns, want, got, wantSrc, gotSrc, ids)| ==
            (if Same(want.options, got.options, true) then 0 else 1)
            + |DifferingIndexes(want.indexes, got.indexes)| + |DifferingDocuments(want.documents, got.documents)|
  {
    ComparesEqualIffSame(ns + " options", want.options, got.options, true);
    IndexReportSize(ns, want.indexes, got.indexes, wantSrc, gotSrc);
    DocumentReportSize(ns, want.documents, got.documents, wantSrc, gotSrc, ids);
  }

  lemma IndexYieldsOne(ns: string, want: map<string, Value>, got: map<string, Value>, wantSrc: string, gotSrc: string,
                       k: string)
    requires k in want.Keys + got.Keys
    ensures |IndexDiff(ns, want, got, wantSrc, gotSrc)(k)| == if k in DifferingIndexes(want, got) then 1 else 0
  {
    if k in want && k in got {
      ComparesEqualIffSame(ns + " index " + k, Stripped(want[k]), Stripped(got[k]), true);
    }
  }

  lemma IndexReportSize(ns: string, want: map<string, Value>, got: map<string, Value>, wantSrc: string, gotSrc: string)
    ensures |Collect(KeysInOrder(want.Keys + got.Keys), IndexDiff(ns, want, got, wantSrc, gotSrc))| ==
            |DifferingIndexes(want, got)|
  {
    var under := IndexDiff(ns, want, got, wantSrc, gotSrc);
    forall k | k in want.Keys + got.Keys ensures |under(k)| == if k in DifferingIndexes(want, got) then 1 else 0 {
      IndexYieldsOne(ns, want, got, wantSrc, gotSrc, k);
    }
    CollectDiffering(want.Keys + got.Keys, under, DifferingIndexes(want, got));
  }

  lemma CollectDiffering(keys: set<string>, under: string -> seq<Divergence>, differing: set<string>)
    requires differing <= keys
    requires forall k :: k in keys ==> |under(k)| == if k in differing then 1 else 0
    ensures |Collect(KeysInOrder(keys), under)| == |differing|
  {
    CollectOnce(keys, under);
    assert Yielding(keys, under) == differing;
  }

  lemma DocumentYieldsOne(ns: string, want: map<string, Value>, got: map<string, Value>, wantSrc: string,
                          gotSrc: string, ids: IdReader, k: string)
    requires k in want.Keys + got.Keys
    ensures |DocumentDiff(ns, want, got, wantSrc, gotSrc, ids)(k)| ==
            if k in DifferingDocuments(want, got) then 1 else 0
  {
    if k in want && k in got {
      ComparesEqualIffSame(ns + " _id=" + DescribeId(At(want, k), At(got, k), ids), want[k], got[k], true);
    }
  }

  lemma DocumentReportSize(ns: string, want: map<string, Value>, got: map<string, Value>, wantSrc: string,
                           gotSrc: string, ids: IdReader)
    ensures |Collect(KeysInOrder(want.Keys + got.Keys), DocumentDiff(ns, want, got, wantSrc, gotSrc, ids))| ==
            |DifferingDocuments(want, got)|
  {
    var under := DocumentDiff(ns, want, got, wantSrc, gotSrc, ids);
    forall k | k in want.Keys + got.Keys ensures |under(k)| == if k in DifferingDocuments(want, got) then 1 else 0 {
      DocumentYieldsOne(ns, want, got, wantSrc, gotSrc, ids, k);
    }
    CollectDiffering(want.Keys + got.Keys, under, DifferingDocuments(want, got));
  }

  /** One divergence stands before another one. */
  ghost predicate Before(report: seq<Divergence>, d: Divergence, e: Divergence) {
    exists i, j :: 0 <= i < j < |report| && report[i] == d && report[j] == e
  }

  lemma BeforeIn(a: seq<Divergence>, report: seq<Divergence>, z: seq<Divergence>, d: Divergence, e: Divergence)
    requires Before(report, d, e)
    ensures Before(a + report + z, d, e)
  {
    var i, j :| 0 <= i < j < |report| && report[i] == d && report[j] == e;
    var whole := a + report + z;
    assert whole[|a| + i] == d && whole[|a| + j] == e;
  }

  lemma BeforeAcross(a: seq<Divergence>, b: seq<Divergence>, d: Divergence, e: Divergence)
    requires d in a && e in b
    ensures Before(a + b, d, e)
  {
    var i :| 0 <= i < |a| && a[i] == d;
    var j :| 0 <= j < |b| && b[j] == e;
    assert (a + b)[i] == d && (a + b)[|a| + j] == e;
  }

  lemma {:induction false} CollectInOrder(keys: seq<string>, under: string -> seq<Divergence>, i: nat, j: nat,
                                          d: Divergence, e: Divergence)
    requires i < j < |keys| && d in under(keys[i]) && e in under(keys[j])
    ensures Before(Collect(keys, under), d, e)
  {
    var init, last := keys[..|keys| - 1], keys[|keys| - 1];
    assert keys == init + [last];
    if j == |keys| - 1 {
      InCollect(init, under, d);
      assert keys[i] in init && Yields(under, keys[i], d);
      BeforeAcross(Collect(init, under), under(last), d, e);
    } else {
      CollectInOrder(init, under, i, j, d, e);
      BeforeIn([], Collect(init, under), under(last), d, e);
      assert [] + Collect(init, under) + under(last) == Collect(keys, under);
    }
  }

  /** What smaller keys yield is collected first. */
  lemma SmallerKeysFirst(keys: set<string>, under: string -> seq<Divergence>, k: string, l: string, d: Divergence,
                         e: Divergence)
    requires k in keys && l in keys && k != l && LexLe(k, l) && d in under(k) && e in under(l)
    ensures Before(Collect(KeysInOrder(keys), under), d, e)
  {
    var r := KeysInOrder(keys);
    KeysAreInOrder(keys);
    LexIsTotalOrder();
    var i :| 0 <= i < |r| && r[i] == k;
    var j :| 0 <= j < |r| && r[j] == l;
    assert i < j;
    CollectInOrder(r, under, i, j, d, e);
  }

  /** Where in the report on a collection a finding belongs: options, then indexes by name, then documents by key. */
  ghost predicate StandsUnder(ns: string, want: CollectionState, got: CollectionState, wantSrc: string, gotSrc: string,
                              ids: IdReader, part: nat, key: string, d: Divergence)
  {
    || (part == 0 && key == "" && Differs(ns + " options", want.options, got.options, d))
    || (part == 1 && IndexFinding(ns, want.indexes, got.indexes, wantSrc, gotSrc, key, d))
    || (part == 2 && DocumentFinding(ns, want.documents, got.documents, wantSrc, gotSrc, ids, key, d))
  }

  lemma InPart(ns: string, want: CollectionState, got: CollectionState, wantSrc: string, gotSrc: string, ids: IdReader,
               part: nat, key: string, d: Divergence)
    requires StandsUnder(ns, want, got, wantSrc, gotSrc, ids, part, key, d)
    ensures part == 0 ==> d in AsList(CompareValues(ns + " options", want.options, got.options, true))
    ensures part == 1 ==> d in Collect(KeysInOrder(want.indexes.Keys + got.indexes.Keys),
                                       IndexDiff(ns, want.indexes, got.indexes, wantSrc, gotSrc))
    ensures part == 2 ==> d in Collect(KeysInOrder(want.documents.Keys + got.documents.Keys),
                                       DocumentDiff(ns, want.documents, got.documents, wantSrc, gotSrc, ids))
  {
    if part == 1 {
      IndexReport(ns, want.indexes, got.indexes, wantSrc, gotSrc, d);
    } else if part == 2 {
      DocumentReport(ns, want.documents, got.documents, wantSrc, gotSrc, ids, d);
    }
  }

  lemma PartsInOrder(a: seq<Divergence>, b: seq<Divergence>, c: seq<Divergence>, d: Divergence, e: Divergence)
    requires (d in a && (e in b || e in c)) || (d in b && e in c)
    ensures Before(a + b + c, d, e)
  {
    if d in a {
      BeforeAcross(a, b + c, d, e);
      assert a + (b + c) == a + b + c;
    } else {
      BeforeAcross(b, c, d, e);
      BeforeIn(a, b + c, [], d, e);
      assert a + (b + c) + [] == a + b + c;
    }
  }

  /** The options come first, then the indexes in the order of their names, then the documents in the order of
      their keys. */
  lemma CollectionReportOrder(ns: string, want: CollectionState, got: CollectionState, wantSrc: string, gotSrc: string,
                              ids: IdReader, part: nat, key: string, d: Divergence, part': nat, key': string,
                              e: Divergence)
    requires StandsUnder(ns, want, got, wantSrc, gotSrc, ids, part, key, d)
    requires StandsUnder(ns, want, got, wantSrc, gotSrc, ids, part', key', e)
    requires part < part' || (part == part' && key != key' && LexLe(key, key'))
    ensures Before(CollectionDiff(ns, want, got, wantSrc, gotSrc, ids), d, e)
  {
    var options := AsList(CompareValues(ns + " options", want.options, got.options, true));
    var names := IndexDiff(ns, want.indexes, got.indexes, wantSrc, gotSrc);
    var keyed := DocumentDiff(ns, want.documents, got.documents, wantSrc, gotSrc, ids);
    var indexes := Collect(KeysInOrder(want.indexes.Keys + got.indexes.Keys), names);
    var documents := Collect(KeysInOrder(want.documents.Keys + got.documents.Keys), keyed);
    if part < part' {
      InPart(ns, want, got, wantSrc, gotSrc, ids, part, key, d);
      InPart(ns, want, got, wantSrc, gotSrc, ids, part', key', e);
      PartsInOrder(options, indexes, documents, d, e);
    } else if part == 1 {
      IndexYields(ns, want.indexes, got.indexes, wantSrc, gotSrc, key, d);
      IndexYields(ns, want.indexes, got.indexes, wantSrc, gotSrc, key', e);
      SmallerKeysFirst(want.indexes.Keys + got.indexes.Keys, names, key, key', d, e);
      BeforeIn(options, indexes, documents, d, e);
    } else {
      DocumentYields(ns, want.documents, got.documents, wantSrc, gotSrc, ids, key, d);
      DocumentYields(ns, want.documents, got.documents, wantSrc, gotSrc, ids, key', e);
      SmallerKeysFirst(want.documents.Keys + got.documents.Keys, keyed, key, key', d, e);
      BeforeIn(options + indexes, documents, [], d, e);
      assert options + indexes + documents + [] == options + indexes + documents;
    }
  }

  /** Collections are reported in the order of their names. */
  lemma DatabaseReportOrder(dbName: string, want: DatabaseState, got: DatabaseState, wantSrc: string, gotSrc: string,
                            ids: IdReader, name: string, d: Divergence, name': string, e: Divergence)
    requires NamedCollectionFinding(dbName, want.collections, got.collections, wantSrc, gotSrc, ids, name, d)
    requires NamedCollectionFinding(dbName, want.collections, got.collections, wantSrc, gotSrc, ids, name', e)
    requires name != name' && LexLe(name, name')
    ensures Before(DatabaseDiff(dbName, want, got, wantSrc, gotSrc, ids), d, e)
  {
    var w, g := want.collections, got.collections;
    CollectionYields(dbName, w, g, wantSrc, gotSrc, ids, name, d);
    CollectionYields(dbName, w, g, wantSrc, gotSrc, ids, name', e);
    SmallerKeysFirst(w.Keys + g.Keys, NamedCollectionDiff(dbName, w, g, wantSrc, gotSrc, ids), name, name', d, e);
  }

  /** Databases are reported in the order of their names. */
  lemma ServerReportOrder(want: ServerState, got: ServerState, ids: IdReader, name: string, d: Divergence,
                          name': string, e: Divergence)
    requires NamedDatabaseFinding(want, got, ids, name, d) && NamedDatabaseFinding(want, got, ids, name', e)
    requires name != name' && LexLe(name, name')
    ensures Before(ServerDiff(want, got, ids), d, e)
  {
    DatabaseYields(want, got, ids, name, d);
    DatabaseYields(want, got, ids, name', e);
    SmallerKeysFirst(want.databases.Keys + got.databases.Keys, NamedDatabaseDiff(want, got, ids), name, name', d, e);
  }
}
