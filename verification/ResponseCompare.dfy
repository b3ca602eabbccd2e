/** harness/compare.go: what comparing an error-free MongoDB response with a DumboDB response means. Only a numeric
    "millis" field is compared with tolerance, and only in DumboDB's favour or within a small slack. */
module ResponseCompare {

  const MILLIS_TOLERANCE_MS := 5.0

  datatype Number =
    | Int32(i: int)
    | Int64(i: int)
    | Double(x: real)
    | PositiveInfinity
    | NegativeInfinity
  {
    /** The order of float64 values, infinities included. */
    predicate AtMost(other: Number, slack: real) {
      match (this, other)
      case (NegativeInfinity, _) => true
      case (_, PositiveInfinity) => true
      case (PositiveInfinity, _) => false
      case (_, NegativeInfinity) => false
      case _ => Value() <= other.Value() + slack
    }

    function Value(): real
      requires !PositiveInfinity? && !NegativeInfinity?
    {
      if Double? then x else i as real
    }
  }

  /** A normalized value: what is left to compare. */
  datatype Tree =
    | Map(fields: map<string, Tree>)
    | List(items: seq<Tree>)
    | Num(number: Number)
    | Text(text: string)
    | NegativeZero
    | Binary(subtype: int, data: seq<int>)
    | Opaque(kind: string, bytes: seq<int>)

  // ---------------------------------------------------------------- normalize

  datatype RawField = RawField(key: string, value: Raw)

  /** A driver value before normalization. */
  datatype Raw =
    | RawDoc(fields: seq<RawField>)
    | RawMap(entries: map<string, Raw>)
    | RawList(items: seq<Raw>)
    | RawObjectId(hex: string)
    | RawBinary(subtype: int, data: seq<int>)
    | RawTimestamp(t: int, i: int)
    | RawNaN
    | RawNegativeZero
    | RawNumber(number: Number)
    | RawText(text: string)
    | RawExact(kind: string, bytes: seq<int>)
    | RawPrinted(value: Printed)

  /** Values that are not documents and have no case of their own: BSON cannot write them at top level, so
      they are replaced by what Go prints for them. */
  datatype Printed =
    | MinKey
    | MaxKey
    | Undefined
    | Symbol(text: string)
    | JavaScript(code: string)
    | OtherPrinted(kind: string, bytes: seq<int>)

  /** How Go prints a value of some other type: decimals, regular expressions, plain ints and the like. */
  type Printer = (string, seq<int>) -> string

  function PrintedText(v: Printed, show: Printer): string {
    match v
    case MinKey => "{}"
    case MaxKey => "{}"
    case Undefined => "{}"
    case Symbol(text) => text
    case JavaScript(code) => code
    case OtherPrinted(kind, bytes) => show(kind, bytes)
  }

  const IGNORED_FIELDS := {"operationTime", "$clusterTime", "insertedId", "insertedIds", "sizeOnDisk", "sizeondisk",
                           "totalSize", "totalsize"}

  const IGNORED := Text("<ignored>")

  function Normalize(v: Raw, show: Printer): Tree
    decreases v, 1
  {
    match v
    case RawDoc(fields) => Map(NormalizeFields(v, |fields|, show))
    case RawMap(entries) =>
      Map(map k | k in entries :: if k in IGNORED_FIELDS then IGNORED else Normalize(entries[k], show))
    case RawList(items) => List(seq(|items|, i requires 0 <= i < |items| => Normalize(items[i], show)))
    case RawObjectId(hex) => Text(hex)
    case RawBinary(subtype, data) => if subtype == 3 || subtype == 4 then Text("<UUID>") else Binary(subtype, data)
    case RawTimestamp(_, _) => Text("<Timestamp>")
    case RawNaN => Text("<NaN>")
    case RawNegativeZero => NegativeZero
    case RawNumber(number) => Num(number)
    case RawText(text) => Text(text)
    case RawExact(kind, bytes) => Opaque(kind, bytes)
    case RawPrinted(value) => Text(PrintedText(value, show))
  }

  /** The map built from the first n fields: a later field replaces an earlier one with its key. */
  function NormalizeFields(v: Raw, n: nat, show: Printer): (m: map<string, Tree>)
    requires v.RawDoc? && n <= |v.fields|
    decreases v, 0, n
  {
    if n == 0 then map[]
    else
      var f := v.fields[n - 1];
      NormalizeFields(v, n - 1, show)[f.key := if f.key in IGNORED_FIELDS then IGNORED else Normalize(f.value, show)]
  }

  // ---------------------------------------------------------------- harmonizeMillis

  /** Whether the millis pair of two maps is to be made equal. */
  predicate WithinTolerance(mongo: Tree, dumbodb: Tree) {
    mongo.Num? && dumbodb.Num? && dumbodb.number.AtMost(mongo.number, MILLIS_TOLERANCE_MS)
  }

  function RewriteMillis(ma: map<string, Tree>, da: map<string, Tree>): map<string, Tree> {
    if "millis" in ma && "millis" in da && WithinTolerance(ma["millis"], da["millis"])
    then da["millis" := ma["millis"]]
    else da
  }

  /** The DumboDB tree after harmonizeMillis. */
  function Harmonized(mongo: Tree, dumbodb: Tree): Tree
    decreases mongo
  {
    match mongo
    case Map(ma) =>
      if !dumbodb.Map? then dumbodb
      else
        var da := RewriteMillis(ma, dumbodb.fields);
        Map(map k | k in da :: if k in ma then Harmonized(ma[k], da[k]) else da[k])
    case List(items) =>
      if !dumbodb.List? || |dumbodb.items| != |items| then dumbodb
      else List(seq(|items|, i requires 0 <= i < |items| => Harmonized(items[i], dumbodb.items[i])))
    case _ => dumbodb
  }

  // ---------------------------------------------------------------- the relation it decides

  /** The same tree, except that a numeric millis in a map may be lower on DumboDB or higher by the slack. */
  ghost predicate Tolerates(mongo: Tree, dumbodb: Tree)
    decreases mongo
  {
    match mongo
    case Map(ma) =>
      && dumbodb.Map? && dumbodb.fields.Keys == ma.Keys
      && forall k :: k in ma ==>
           if k == "millis" && ma[k].Num? && dumbodb.fields[k].Num?
           then dumbodb.fields[k].number.AtMost(ma[k].number, MILLIS_TOLERANCE_MS)
           else Tolerates(ma[k], dumbodb.fields[k])
    case List(items) =>
      && dumbodb.List? && |dumbodb.items| == |items|
      && forall i :: 0 <= i < |items| ==> Tolerates(items[i], dumbodb.items[i])
    case _ => dumbodb == mongo
  }

  /** Rewriting and then comparing exactly decides the relation. */
  lemma {:induction false} HarmonizingDecidesTolerance(mongo: Tree, dumbodb: Tree)
    ensures Harmonized(mongo, dumbodb) == mongo <==> Tolerates(mongo, dumbodb)
    decreases mongo
  {
    if mongo.Map? && dumbodb.Map? {
      var ma, da := mongo.fields, dumbodb.fields;
      forall k | k in ma && k in da ensures Harmonized(ma[k], da[k]) == ma[k] <==> Tolerates(ma[k], da[k]) {
        HarmonizingDecidesTolerance(ma[k], da[k]);
      }
      MapsDecide(mongo, dumbodb);
    } else if mongo.List? && dumbodb.List? && |mongo.items| == |dumbodb.items| {
      forall i | 0 <= i < |mongo.items|
        ensures Harmonized(mongo.items[i], dumbodb.items[i]) == mongo.items[i] <==>
                Tolerates(mongo.items[i], dumbodb.items[i])
      {
        HarmonizingDecidesTolerance(mongo.items[i], dumbodb.items[i]);
      }
      ListsDecide(mongo, dumbodb);
    }
  }

  /** A field of two maps after the walk. */
  predicate FieldEqual(ma: map<string, Tree>, da: map<string, Tree>, k: string)
    requires k in ma && k in da
  {
    Harmonized(ma[k], RewriteMillis(ma, da)[k]) == ma[k]
  }

  ghost predicate FieldTolerated(ma: map<string, Tree>, da: map<string, Tree>, k: string)
    requires k in ma && k in da
  {
    if k == "millis" && ma[k].Num? && da[k].Num? then da[k].number.AtMost(ma[k].number, MILLIS_TOLERANCE_MS)
    else Tolerates(ma[k], da[k])
  }

  lemma FieldDecides(ma: map<string, Tree>, da: map<string, Tree>, k: string)
    requires k in ma && k in da
    requires Harmonized(ma[k], da[k]) == ma[k] <==> Tolerates(ma[k], da[k])
    ensures FieldEqual(ma, da, k) <==> FieldTolerated(ma, da, k)
  {
  }

  lemma MapsEqual(ma: map<string, Tree>, da: map<string, Tree>)
    ensures Harmonized(Map(ma), Map(da)) == Map(ma) <==>
            ma.Keys == da.Keys && forall k :: k in ma.Keys * da.Keys ==> FieldEqual(ma, da, k)
  {
    var out := Harmonized(Map(ma), Map(da)).fields;
    assert out.Keys == da.Keys;
    forall k | k in ma.Keys * da.Keys ensures out[k] == ma[k] <==> FieldEqual(ma, da, k) {}
    if ma.Keys == da.Keys {
      assert out == ma <==> forall k :: k in ma.Keys * da.Keys ==> out[k] == ma[k];
    }
  }

  lemma MapsTolerated(ma: map<string, Tree>, da: map<string, Tree>)
    ensures Tolerates(Map(ma), Map(da)) <==>
            ma.Keys == da.Keys && forall k :: k in ma.Keys * da.Keys ==> FieldTolerated(ma, da, k)
  {
    if Tolerates(Map(ma), Map(da)) {
      forall k | k in ma.Keys * da.Keys ensures FieldTolerated(ma, da, k) { assert k in Map(ma).fields; }
    }
    if ma.Keys == da.Keys && forall k :: k in ma.Keys * da.Keys ==> FieldTolerated(ma, da, k) {
      forall k | k in ma
        ensures if k == "millis" && ma[k].Num? && da[k].Num? then da[k].number.AtMost(ma[k].number, MILLIS_TOLERANCE_MS)
                else Tolerates(ma[k], da[k])
      {
        assert k in ma.Keys * da.Keys && FieldTolerated(ma, da, k);
      }
    }
  }

  lemma MapsDecide(mongo: Tree, dumbodb: Tree)
    requires mongo.Map? && dumbodb.Map?
    requires forall k :: k in mongo.fields && k in dumbodb.fields ==>
               (Harmonized(mongo.fields[k], dumbodb.fields[k]) == mongo.fields[k] <==>
                Tolerates(mongo.fields[k], dumbodb.fields[k]))
    ensures Harmonized(mongo, dumbodb) == mongo <==> Tolerates(mongo, dumbodb)
  {
    var ma, da := mongo.fields, dumbodb.fields;
    MapsEqual(ma, da);
    MapsTolerated(ma, da);
    forall k | k in ma.Keys * da.Keys ensures FieldEqual(ma, da, k) <==> FieldTolerated(ma, da, k) {
      FieldDecides(ma, da, k);
    }
  }

  lemma ListsDecide(mongo: Tree, dumbodb: Tree)
    requires mongo.List? && dumbodb.List? && |mongo.items| == |dumbodb.items|
    requires forall i :: 0 <= i < |mongo.items| ==>
               (Harmonized(mongo.items[i], dumbodb.items[i]) == mongo.items[i] <==>
                Tolerates(mongo.items[i], dumbodb.items[i]))
    ensures Harmonized(mongo, dumbodb) == mongo <==> Tolerates(mongo, dumbodb)
  {
    var out := Harmonized(mongo, dumbodb).items;
    assert forall i :: 0 <= i < |out| ==> out[i] == Harmonized(mongo.items[i], dumbodb.items[i]);
    assert out == mongo.items <==> forall i :: 0 <= i < |out| ==> out[i] == mongo.items[i];
  }

  /** A response always matches itself. */
  lemma {:induction false} ToleratesItself(t: Tree)
    ensures Tolerates(t, t)
  {
    if t.Map? {
      forall k | k in t.fields ensures Tolerates(t.fields[k], t.fields[k]) { ToleratesItself(t.fields[k]); }
    } else if t.List? {
      forall i | 0 <= i < |t.items| ensures Tolerates(t.items[i], t.items[i]) { ToleratesItself(t.items[i]); }
    }
  }

  /** Equal infinities, or finite numbers at most slack apart. */
  predicate Near(x: Number, y: Number, slack: real) {
    if x.PositiveInfinity? || x.NegativeInfinity? || y.PositiveInfinity? || y.NegativeInfinity? then x == y
    else -slack <= x.Value() - y.Value() <= slack
  }

  lemma NearIff(x: Number, y: Number, slack: real)
    ensures Near(x, y, slack) <==> x.AtMost(y, slack) && y.AtMost(x, slack)
  {
  }

  /** The same tree, except that a pair of numeric millis in a map may lie the slack apart. */
  ghost predicate Close(a: Tree, b: Tree)
    decreases a
  {
    match a
    case Map(fields) =>
      && b.Map? && b.fields.Keys == fields.Keys
      && forall k :: k in fields ==>
           if k == "millis" && fields[k].Num? && b.fields[k].Num?
           then Near(fields[k].number, b.fields[k].number, MILLIS_TOLERANCE_MS)
           else Close(fields[k], b.fields[k])
    case List(items) =>
      && b.List? && |b.items| == |items|
      && forall i :: 0 <= i < |items| ==> Close(items[i], b.items[i])
    case _ => b == a
  }

  ghost predicate FieldClose(a: map<string, Tree>, b: map<string, Tree>, k: string)
    requires k in a && k in b
  {
    if k == "millis" && a[k].Num? && b[k].Num? then Near(a[k].number, b[k].number, MILLIS_TOLERANCE_MS)
    else Close(a[k], b[k])
  }

  lemma MapsClose(a: map<string, Tree>, b: map<string, Tree>)
    ensures Close(Map(a), Map(b)) <==> a.Keys == b.Keys && forall k :: k in a.Keys * b.Keys ==> FieldClose(a, b, k)
  {
    if Close(Map(a), Map(b)) {
      forall k | k in a.Keys * b.Keys ensures FieldClose(a, b, k) { assert k in Map(a).fields; }
    }
    if a.Keys == b.Keys && forall k :: k in a.Keys * b.Keys ==> FieldClose(a, b, k) {
      forall k | k in a
        ensures if k == "millis" && a[k].Num? && b[k].Num? then Near(a[k].number, b[k].number, MILLIS_TOLERANCE_MS)
                else Close(a[k], b[k])
      {
        assert k in a.Keys * b.Keys && FieldClose(a, b, k);
      }
    }
  }

  /** Two responses match whichever server gave which, exactly when they are the same but for pairs of
      numeric millis that lie within the slack of each other. */
  lemma {:induction false} MatchBothWaysIff(a: Tree, b: Tree)
    ensures Tolerates(a, b) && Tolerates(b, a) <==> Close(a, b)
    decreases a, 0
  {
    if a.Map? && b.Map? {
      var fa, fb := a.fields, b.fields;
      MapsTolerated(fa, fb);
      MapsTolerated(fb, fa);
      MapsClose(fa, fb);
      forall k | k in fa.Keys * fb.Keys
        ensures FieldTolerated(fa, fb, k) && FieldTolerated(fb, fa, k) <==> FieldClose(fa, fb, k)
      {
        FieldBothWays(fa, fb, k);
      }
      assert fa.Keys * fb.Keys == fb.Keys * fa.Keys;
    } else if a.List? && b.List? && |a.items| == |b.items| {
      forall i | 0 <= i < |a.items|
        ensures Tolerates(a.items[i], b.items[i]) && Tolerates(b.items[i], a.items[i]) <==>
                Close(a.items[i], b.items[i])
      {
        MatchBothWaysIff(a.items[i], b.items[i]);
      }
    }
  }

  lemma {:induction false} FieldBothWays(a: map<string, Tree>, b: map<string, Tree>, k: string)
    requires k in a && k in b
    ensures FieldTolerated(a, b, k) && FieldTolerated(b, a, k) <==> FieldClose(a, b, k)
    decreases a[k], 1
  {
    if k == "millis" && a[k].Num? && b[k].Num? {
      NearIff(a[k].number, b[k].number, MILLIS_TOLERANCE_MS);
    } else {
      MatchBothWaysIff(a[k], b[k]);
    }
  }

  /** So the tolerance is one-sided: a response slower by more than the slack matches in one direction only. */
  lemma ToleranceIsOneSided(a: Number, b: Number)
    ensures var slow, fast := Map(map["millis" := Num(a)]), Map(map["millis" := Num(b)]);
            Tolerates(slow, fast) && !Tolerates(fast, slow) <==> !a.AtMost(b, MILLIS_TOLERANCE_MS)
  {
    var slow, fast := map["millis" := Num(a)], map["millis" := Num(b)];
    MapsTolerated(slow, fast);
    MapsTolerated(fast, slow);
    assert slow.Keys * fast.Keys == {"millis"} == fast.Keys * slow.Keys;
    assert FieldTolerated(slow, fast, "millis") <==> b.AtMost(a, MILLIS_TOLERANCE_MS);
    assert FieldTolerated(fast, slow, "millis") <==> a.AtMost(b, MILLIS_TOLERANCE_MS);
  }

  /** The number, of whichever type, has this finite value. */
  predicate Measures(n: Number, x: real) {
    match n
    case Int32(i) => x == i as real
    case Int64(i) => x == i as real
    case Double(y) => x == y
    case _ => false
  }

  lemma MillisDecide(a: Number, b: Number)
    ensures Tolerates(Map(map["millis" := Num(a)]), Map(map["millis" := Num(b)])) <==>
            b.AtMost(a, MILLIS_TOLERANCE_MS)
  {
    var mongo, dumbodb := map["millis" := Num(a)], map["millis" := Num(b)];
    MapsTolerated(mongo, dumbodb);
    assert mongo.Keys * dumbodb.Keys == {"millis"};
    assert FieldTolerated(mongo, dumbodb, "millis") <==> b.AtMost(a, MILLIS_TOLERANCE_MS);
  }

  /** Millis of whatever number types match exactly when DumboDB took at most five more than MongoDB. */
  lemma FiniteMillis(mongo: Number, dumbodb: Number, m: real, d: real)
    requires Measures(mongo, m) && Measures(dumbodb, d)
    ensures Tolerates(Map(map["millis" := Num(mongo)]), Map(map["millis" := Num(dumbodb)])) <==> d <= m + 5.0
  {
    MillisDecide(mongo, dumbodb);
  }

  /** Where a millis is infinite they match exactly when MongoDB's is above everything or DumboDB's below. */
  lemma InfiniteMillis(mongo: Number, dumbodb: Number)
    requires mongo.PositiveInfinity? || mongo.NegativeInfinity? || dumbodb.PositiveInfinity?
             || dumbodb.NegativeInfinity?
    ensures Tolerates(Map(map["millis" := Num(mongo)]), Map(map["millis" := Num(dumbodb)])) <==>
            mongo == PositiveInfinity || dumbodb == NegativeInfinity
  {
    MillisDecide(mongo, dumbodb);
  }

  // ---------------------------------------------------------------- what normalization keeps

  /** Two values of one field are not told apart exactly when they normalize alike or the field is one of the
      eight that are ignored. */
  lemma IgnoredExactly(key: string, x: Raw, y: Raw, show: Printer)
    ensures Normalize(RawDoc([RawField(key, x)]), show) == Normalize(RawDoc([RawField(key, y)]), show) <==>
            || Normalize(x, show) == Normalize(y, show)
            || key == "operationTime" || key == "$clusterTime"
            || key == "insertedId" || key == "insertedIds"
            || key == "sizeOnDisk" || key == "sizeondisk"
            || key == "totalSize" || key == "totalsize"
  {
    SingleField(RawField(key, x), show);
    SingleField(RawField(key, y), show);
  }

  lemma SingleField(f: RawField, show: Printer)
    ensures var t := Normalize(RawDoc([f]), show);
            && t.Map? && f.key in t.fields
            && t == Map(map[f.key := t.fields[f.key]])
            && t.fields[f.key] == if f.key in IGNORED_FIELDS then IGNORED else Normalize(f.value, show)
  {
    assert NormalizeFields(RawDoc([f]), 0, show) == map[];
  }

  /** What a field's value normalizes to is all that matters of it. */
  lemma {:induction false} OnlyTheNormalFormMatters(fields: seq<RawField>, i: nat, other: Raw, n: nat, show: Printer)
    requires i < |fields| && n <= |fields|
    requires fields[i].key in IGNORED_FIELDS || Normalize(fields[i].value, show) == Normalize(other, show)
    ensures NormalizeFields(RawDoc(fields), n, show)
              == NormalizeFields(RawDoc(fields[i := RawField(fields[i].key, other)]), n, show)
  {
    if n > 0 { OnlyTheNormalFormMatters(fields, i, other, n - 1, show); }
  }

  /** The value of an ignored field is dropped, whatever it is. */
  lemma IgnoredValueIsInvisible(fields: seq<RawField>, i: nat, other: Raw, show: Printer)
    requires i < |fields| && fields[i].key in IGNORED_FIELDS
    ensures Normalize(RawDoc(fields), show) == Normalize(RawDoc(fields[i := RawField(fields[i].key, other)]), show)
  {
    OnlyTheNormalFormMatters(fields, i, other, |fields|, show);
  }

  /** Printed values and ids are not told apart from the string of the same text. */
  lemma TextsThatMatch(text: string, kind: string, bytes: seq<int>, show: Printer)
    ensures Normalize(RawPrinted(Symbol(text)), show) == Normalize(RawText(text), show)
    ensures Normalize(RawPrinted(JavaScript(text)), show) == Normalize(RawText(text), show)
    ensures Normalize(RawObjectId(text), show) == Normalize(RawText(text), show)
    ensures Normalize(RawPrinted(OtherPrinted(kind, bytes)), show) == Normalize(RawText(show(kind, bytes)), show)
    ensures Normalize(RawPrinted(MinKey), show) == Normalize(RawText("{}"), show)
  {
  }

  /** A MinKey and a MaxKey in the same place of a document are not told apart, nor is an Undefined. */
  lemma SwappedKeysMatch(fields: seq<RawField>, i: nat, show: Printer)
    requires i < |fields| && fields[i].value == RawPrinted(MinKey)
    ensures forall other :: other == MaxKey || other == Undefined ==>
              Tolerates(Normalize(RawDoc(fields), show),
                        Normalize(RawDoc(fields[i := RawField(fields[i].key, RawPrinted(other))]), show))
  {
    forall other | other == MaxKey || other == Undefined
      ensures Tolerates(Normalize(RawDoc(fields), show),
                        Normalize(RawDoc(fields[i := RawField(fields[i].key, RawPrinted(other))]), show))
    {
      OnlyTheNormalFormMatters(fields, i, RawPrinted(other), |fields|, show);
      ToleratesItself(Normalize(RawDoc(fields), show));
    }
  }

  lemma {:induction false} PresenceIsKept(fields: seq<RawField>, n: nat, key: string, show: Printer)
    requires n <= |fields|
    ensures key in NormalizeFields(RawDoc(fields), n, show) <==> exists i :: 0 <= i < n && fields[i].key == key
  {
    if n > 0 { PresenceIsKept(fields, n - 1, key, show); }
  }

  /** A response that lacks a field the other one has never matches, ignored or not. */
  lemma MissingFieldDiverges(mongo: seq<RawField>, dumbodb: seq<RawField>, key: string, show: Printer)
    requires (exists i :: 0 <= i < |mongo| && mongo[i].key == key)
          != (exists i :: 0 <= i < |dumbodb| && dumbodb[i].key == key)
    ensures !Tolerates(Normalize(RawDoc(mongo), show), Normalize(RawDoc(dumbodb), show))
  {
    PresenceIsKept(mongo, |mongo|, key, show);
    PresenceIsKept(dumbodb, |dumbodb|, key, show);
  }

  predicate IsLeaf(v: Raw) {
    !v.RawDoc? && !v.RawMap? && !v.RawList?
  }

  /** The text some leaves are compared by: an id by its digits, what cannot be predicted by a constant, and
      what cannot be marshalled by what Go prints for it. */
  function Shown(v: Raw, show: Printer): seq<string> {
    match v
    case RawText(text) => [text]
    case RawObjectId(hex) => [hex]
    case RawBinary(3, _) => ["<UUID>"]
    case RawBinary(4, _) => ["<UUID>"]
    case RawTimestamp(_, _) => ["<Timestamp>"]
    case RawNaN => ["<NaN>"]
    case RawPrinted(value) => [PrintedText(value, show)]
    case _ => []
  }

  /** Leaves compare equal exactly when they are the same value or shown as the same text; numbers of
      different types, and the two zeros, stay apart. */
  lemma LeavesMatchIff(a: Raw, b: Raw, show: Printer)
    requires IsLeaf(a) && IsLeaf(b)
    ensures Normalize(a, show) == Normalize(b, show) <==>
            a == b || (Shown(a, show) != [] && Shown(a, show) == Shown(b, show))
  {
    assert |Shown(a, show)| <= 1 && |Shown(b, show)| <= 1;
  }
}
