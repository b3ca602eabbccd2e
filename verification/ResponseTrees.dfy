/** harness/compare.go: the in-place walk of harmonizeMillis over the maps that normalize allocates. */
module ResponseTrees {
  import opened ResponseCompare

  /** A Go map of a normalized response. */
  class Node {
    var fields: map<string, Item>

    constructor ()
      ensures fields == map[]
    {
      fields := map[];
    }
  }

  /** A normalized value: only maps are written to after they are built. */
  datatype Item = Ref(node: Node) | Slice(items: seq<Item>) | Scalar(tree: Tree)

  /** Which map sits where in a tree of items. */
  datatype Skeleton = Branch(node: Node, kids: map<string, Skeleton>) | Row(items: seq<Skeleton>) | Tip

  ghost function Footprint(sk: Skeleton): set<Node> {
    match sk
    case Branch(node, kids) => {node} + set k, n | k in kids && n in Footprint(kids[k]) :: n
    case Row(items) => set i, n | 0 <= i < |items| && n in Footprint(items[i]) :: n
    case Tip => {}
  }

  /** No map is reached along two ways. */
  ghost predicate Separate(sk: Skeleton) {
    match sk
    case Branch(node, kids) =>
      && (forall k :: k in kids ==> Separate(kids[k]) && node !in Footprint(kids[k]))
      && forall j, k :: j in kids && k in kids && j != k ==> Footprint(kids[j]) !! Footprint(kids[k])
    case Row(items) =>
      && (forall i :: 0 <= i < |items| ==> Separate(items[i]))
      && forall i, j :: 0 <= i < j < |items| ==> Footprint(items[i]) !! Footprint(items[j])
    case Tip => true
  }

  lemma KidsApart(sk: Skeleton, k: string)
    requires sk.Branch? && Separate(sk) && k in sk.kids
    ensures Footprint(sk.kids[k]) <= Footprint(sk) && sk.node !in Footprint(sk.kids[k])
    ensures forall j, n :: j in sk.kids && j != k && n in Footprint(sk.kids[j]) ==>
            n in Footprint(sk) && n !in Footprint(sk.kids[k])
  {
    forall j, n | j in sk.kids && j != k && n in Footprint(sk.kids[j]) ensures n !in Footprint(sk.kids[k]) {
      assert Footprint(sk.kids[j]) !! Footprint(sk.kids[k]);
    }
  }

  lemma ItemsApart(sk: Skeleton, i: nat)
    requires sk.Row? && Separate(sk) && i < |sk.items|
    ensures Footprint(sk.items[i]) <= Footprint(sk)
    ensures forall j, n :: 0 <= j < |sk.items| && j != i && n in Footprint(sk.items[j]) ==>
            n in Footprint(sk) && n !in Footprint(sk.items[i])
  {
    forall j, n | 0 <= j < |sk.items| && j != i && n in Footprint(sk.items[j]) ensures n !in Footprint(sk.items[i]) {
      assert Footprint(sk.items[j]) !! Footprint(sk.items[i]);
    }
  }

  /** The item is laid out as the skeleton says and stands for the tree. */
  ghost predicate Holds(item: Item, sk: Skeleton, t: Tree)
    reads Footprint(sk)
    decreases sk
  {
    match sk
    case Branch(node, kids) =>
      && item == Ref(node) && t.Map? && node.fields.Keys == kids.Keys == t.fields.Keys
      && forall k :: k in kids ==> Holds(node.fields[k], kids[k], t.fields[k])
    case Row(items) =>
      && item.Slice? && t.List? && |item.items| == |items| == |t.items|
      && forall i :: 0 <= i < |items| ==> Holds(item.items[i], items[i], t.items[i])
    case Tip => item == Scalar(t) && !t.Map? && !t.List?
  }

  // ---------------------------------------------------------------- normalize

  /** A value built from maps that did not exist before. */
  method BuildItem(v: Raw, show: Printer) returns (item: Item, ghost sk: Skeleton, ghost nodes: set<Node>)
    ensures Holds(item, sk, Normalize(v, show)) && Separate(sk) && Footprint(sk) <= nodes && fresh(nodes)
    decreases v, 1
  {
    match v {
      case RawDoc(_) => item, sk, nodes := BuildDocument(v, show);
      case RawMap(_) => item, sk, nodes := BuildMap(v, show);
      case RawList(_) => item, sk, nodes := BuildSlice(v, show);
      case _ => item, sk, nodes := Scalar(Normalize(v, show)), Tip, {};
    }
  }

  ghost function Entry(key: string, v: Raw, show: Printer): Tree {
    if key in IGNORED_FIELDS then IGNORED else Normalize(v, show)
  }

  /** A map entry: the value of an ignored field is replaced. */
  method BuildEntry(key: string, v: Raw, show: Printer) returns (item: Item, ghost sk: Skeleton, ghost nodes: set<Node>)
    ensures Holds(item, sk, Entry(key, v, show))
    ensures Separate(sk) && Footprint(sk) <= nodes && fresh(nodes)
    decreases v, 2
  {
    if key in IGNORED_FIELDS {
      item, sk, nodes := Scalar(IGNORED), Tip, {};
    } else {
      item, sk, nodes := BuildItem(v, show);
    }
  }

  /** Writes one entry of a map. */
  method Put(node: Node, key: string, child: Item, ghost sk: Skeleton, ghost t: Tree, ghost nodes: set<Node>,
             ghost childSk: Skeleton, ghost childTree: Tree, ghost childNodes: set<Node>)
    returns (ghost next: Skeleton)
    requires sk.Branch? && Holds(Ref(node), sk, t) && Separate(sk) && Footprint(sk) <= nodes
    requires Holds(child, childSk, childTree) && Separate(childSk) && Footprint(childSk) <= childNodes
             && childNodes !! nodes
    modifies node
    ensures next.Branch? && Holds(Ref(node), next, Map(t.fields[key := childTree]))
    ensures Separate(next) && Footprint(next) <= nodes + childNodes
  {
    PutApart(sk, nodes, key, childSk, childNodes);
    node.fields := node.fields[key := child];
    next := Branch(node, sk.kids[key := childSk]);
  }

  lemma PutApart(sk: Skeleton, nodes: set<Node>, key: string, childSk: Skeleton, childNodes: set<Node>)
    requires sk.Branch? && Separate(sk) && Footprint(sk) <= nodes
    requires Separate(childSk) && Footprint(childSk) <= childNodes && childNodes !! nodes
    ensures var next := Branch(sk.node, sk.kids[key := childSk]);
            Separate(next) && Footprint(next) <= nodes + childNodes
  {
    assert forall k, n :: k in sk.kids && n in Footprint(sk.kids[k]) ==> n in Footprint(sk);
  }

  method BuildDocument(v: Raw, show: Printer) returns (item: Item, ghost sk: Skeleton, ghost nodes: set<Node>)
    requires v.RawDoc?
    ensures Holds(item, sk, Normalize(v, show)) && Separate(sk) && Footprint(sk) <= nodes && fresh(nodes)
    decreases v, 0
  {
    var node := new Node();
    item, sk, nodes := Ref(node), Branch(node, map[]), {node};
    for i := 0 to |v.fields|
      invariant item == Ref(node) && sk.Branch? && fresh(node) && fresh(nodes)
      invariant Holds(item, sk, Map(NormalizeFields(v, i, show))) && Separate(sk) && Footprint(sk) <= nodes
    {
      var f := v.fields[i];
      ghost var before := NormalizeFields(v, i, show);
      var child, childSk, childNodes := BuildEntry(f.key, f.value, show);
      sk := Put(node, f.key, child, sk, Map(before), nodes, childSk, Entry(f.key, f.value, show), childNodes);
      nodes := nodes + childNodes;
    }
  }

  /** The entries of a map already normalized. */
  ghost function Entered(v: Raw, rest: set<string>, show: Printer): map<string, Tree>
    requires v.RawMap?
  {
    map k | k in v.entries && k !in rest :: Entry(k, v.entries[k], show)
  }

  lemma EnteredStep(v: Raw, rest: set<string>, k: string, show: Printer)
    requires v.RawMap? && k in rest && rest <= v.entries.Keys
    ensures Entered(v, rest - {k}, show) == Entered(v, rest, show)[k := Entry(k, v.entries[k], show)]
  {
  }

  lemma EnteredAll(v: Raw, show: Printer)
    requires v.RawMap?
    ensures Map(Entered(v, {}, show)) == Normalize(v, show)
  {
  }

  method BuildMap(v: Raw, show: Printer) returns (item: Item, ghost sk: Skeleton, ghost nodes: set<Node>)
    requires v.RawMap?
    ensures Holds(item, sk, Normalize(v, show)) && Separate(sk) && Footprint(sk) <= nodes && fresh(nodes)
    decreases v, 0
  {
    var node := new Node();
    item, sk, nodes := Ref(node), Branch(node, map[]), {node};
    var rest := v.entries.Keys;
    assert Entered(v, rest, show) == map[];
    while rest != {}
      invariant rest <= v.entries.Keys
      invariant item == Ref(node) && sk.Branch? && fresh(node) && fresh(nodes)
      invariant Holds(item, sk, Map(Entered(v, rest, show))) && Separate(sk) && Footprint(sk) <= nodes
      decreases rest
    {
      var k :| k in rest;
      ghost var before := Entered(v, rest, show);
      var child, childSk, childNodes := BuildEntry(k, v.entries[k], show);
      sk := Put(node, k, child, sk, Map(before), nodes, childSk, Entry(k, v.entries[k], show), childNodes);
      EnteredStep(v, rest, k, show);
      nodes := nodes + childNodes;
      rest := rest - {k};
    }
    EnteredAll(v, show);
  }

  lemma SliceSnoc(items: seq<Item>, sk: Skeleton, trees: seq<Tree>, nodes: set<Node>,
                  child: Item, childSk: Skeleton, childTree: Tree, childNodes: set<Node>)
    requires sk.Row? && Holds(Slice(items), sk, List(trees)) && Separate(sk) && Footprint(sk) <= nodes
    requires Holds(child, childSk, childTree) && Separate(childSk) && Footprint(childSk) <= childNodes
             && childNodes !! nodes
    ensures var longer := Row(sk.items + [childSk]);
            && Holds(Slice(items + [child]), longer, List(trees + [childTree]))
            && Separate(longer) && Footprint(longer) <= nodes + childNodes
  {
    var longer := Row(sk.items + [childSk]);
    assert forall i, n :: 0 <= i < |sk.items| && n in Footprint(sk.items[i]) ==> n in Footprint(sk);
  }

  method BuildSlice(v: Raw, show: Printer) returns (item: Item, ghost sk: Skeleton, ghost nodes: set<Node>)
    requires v.RawList?
    ensures Holds(item, sk, Normalize(v, show)) && Separate(sk) && Footprint(sk) <= nodes && fresh(nodes)
    decreases v, 0
  {
    item, sk, nodes := Slice([]), Row([]), {};
    ghost var trees: seq<Tree> := [];
    for i := 0 to |v.items|
      invariant item.Slice? && sk.Row? && fresh(nodes)
      invariant |trees| == i && forall j :: 0 <= j < i ==> trees[j] == Normalize(v.items[j], show)
      invariant Holds(item, sk, List(trees)) && Separate(sk) && Footprint(sk) <= nodes
    {
      var child, childSk, childNodes := BuildItem(v.items[i], show);
      SliceSnoc(item.items, sk, trees, nodes, child, childSk, Normalize(v.items[i], show), childNodes);
      item, sk, nodes := Slice(item.items + [child]), Row(sk.items + [childSk]), nodes + childNodes;
      trees := trees + [Normalize(v.items[i], show)];
    }
    assert List(trees) == Normalize(v, show);
  }

  // ---------------------------------------------------------------- harmonizeMillis

  /** The walk writes nothing but the maps of the DumboDB tree, and leaves there what Harmonized says. */
  method HarmonizeMillis(mongo: Tree, dumbodb: Item, ghost sk: Skeleton, ghost t: Tree, ghost nodes: set<Node>)
    requires Holds(dumbodb, sk, t) && Separate(sk) && nodes == Footprint(sk)
    modifies nodes
    ensures Holds(dumbodb, sk, Harmonized(mongo, t))
    decreases mongo, 2
  {
    match mongo {
      case Map(ma) =>
        if dumbodb.Ref? {
          AdjustMillis(ma, dumbodb.node, sk, t, nodes);
          HarmonizeFields(mongo, dumbodb.node, sk, Map(RewriteMillis(ma, t.fields)), nodes);
          WalkedAll(mongo, t);
        }
      case List(items) =>
        if dumbodb.Slice? && |dumbodb.items| == |items| { HarmonizeSlice(mongo, dumbodb.items, sk, t, nodes); }
      case _ =>
    }
  }

  /** A millis pair within the tolerance is made equal. */
  method AdjustMillis(ma: map<string, Tree>, node: Node, ghost sk: Skeleton, ghost t: Tree, ghost nodes: set<Node>)
    requires sk.Branch? && Holds(Ref(node), sk, t) && Separate(sk) && nodes == Footprint(sk)
    modifies node
    ensures Holds(Ref(node), sk, Map(RewriteMillis(ma, t.fields)))
  {
    if "millis" in ma && "millis" in node.fields {
      var dumbodbMillis := node.fields["millis"];
      if dumbodbMillis.Scalar? && WithinTolerance(ma["millis"], dumbodbMillis.tree) {
        node.fields := node.fields["millis" := Scalar(ma["millis"])];
      }
    }
  }

  /** The fields of a map once the walk has visited all but the given keys. */
  ghost function Walked(ma: map<string, Tree>, da: map<string, Tree>, rest: set<string>): map<string, Tree> {
    map k | k in da :: if k in ma && k !in rest then Harmonized(ma[k], da[k]) else da[k]
  }

  lemma WalkedAll(mongo: Tree, t: Tree)
    requires mongo.Map? && t.Map?
    ensures Harmonized(mongo, t) == Map(Walked(mongo.fields, RewriteMillis(mongo.fields, t.fields), {}))
  {
  }

  method HarmonizeFields(mongo: Tree, node: Node, ghost sk: Skeleton, ghost t: Tree, ghost nodes: set<Node>)
    requires mongo.Map? && sk.Branch? && Holds(Ref(node), sk, t) && Separate(sk) && nodes == Footprint(sk)
    modifies nodes
    ensures Holds(Ref(node), sk, Map(Walked(mongo.fields, t.fields, {})))
    decreases mongo, 1
  {
    var ma := mongo.fields;
    var rest := ma.Keys;
    while rest != {}
      invariant rest <= ma.Keys
      invariant Holds(Ref(node), sk, Map(Walked(ma, t.fields, rest)))
      decreases rest
    {
      var k :| k in rest;
      if k in node.fields {
        HarmonizeField(mongo, k, node, sk, Map(Walked(ma, t.fields, rest)), nodes);
      }
      rest := rest - {k};
    }
  }

  method HarmonizeField(mongo: Tree, k: string, node: Node, ghost sk: Skeleton, ghost t: Tree, ghost nodes: set<Node>)
    requires mongo.Map? && k in mongo.fields && k in node.fields && sk.Branch? && Holds(Ref(node), sk, t)
             && Separate(sk) && nodes == Footprint(sk)
    modifies nodes
    ensures Holds(Ref(node), sk, Map(t.fields[k := Harmonized(mongo.fields[k], t.fields[k])]))
    decreases mongo, 0
  {
    var fields := node.fields;
    KidsApart(sk, k);
    HarmonizeMillis(mongo.fields[k], fields[k], sk.kids[k], t.fields[k], Footprint(sk.kids[k]));
    assert node.fields == fields;
    forall j | j in sk.kids && j != k ensures Holds(fields[j], sk.kids[j], t.fields[j]) {
      assert old(Holds(fields[j], sk.kids[j], t.fields[j]));
    }
  }

  method HarmonizeSlice(mongo: Tree, items: seq<Item>, ghost sk: Skeleton, ghost t: Tree, ghost nodes: set<Node>)
    requires mongo.List? && |items| == |mongo.items| && Holds(Slice(items), sk, t) && Separate(sk)
             && nodes == Footprint(sk)
    modifies nodes
    ensures Holds(Slice(items), sk, Harmonized(mongo, t))
    decreases mongo, 1
  {
    ghost var now := t.items;
    for i := 0 to |items|
      invariant |now| == |items| && Holds(Slice(items), sk, List(now))
      invariant forall j :: 0 <= j < |items| ==>
                  now[j] == if j < i then Harmonized(mongo.items[j], t.items[j]) else t.items[j]
    {
      HarmonizeItem(mongo.items[i], i, items, sk, List(now), nodes);
      now := now[i := Harmonized(mongo.items[i], now[i])];
    }
    assert List(now) == Harmonized(mongo, t);
  }

  method HarmonizeItem(mongo: Tree, i: nat, items: seq<Item>, ghost sk: Skeleton, ghost t: Tree, ghost nodes: set<Node>)
    requires i < |items| && Holds(Slice(items), sk, t) && Separate(sk) && nodes == Footprint(sk)
    modifies nodes
    ensures Holds(Slice(items), sk, List(t.items[i := Harmonized(mongo, t.items[i])]))
    decreases mongo, 3
  {
    ItemsApart(sk, i);
    HarmonizeMillis(mongo, items[i], sk.items[i], t.items[i], Footprint(sk.items[i]));
    forall j | 0 <= j < |items| && j != i ensures Holds(items[j], sk.items[j], t.items[j]) {
      assert old(Holds(items[j], sk.items[j], t.items[j]));
    }
  }

  // ---------------------------------------------------------------- CompareResponses

  /** reflect.DeepEqual against a tree. */
  predicate DeepEqual(t: Tree, item: Item, ghost sk: Skeleton, ghost it: Tree): (same: bool)
    requires Holds(item, sk, it)
    reads Footprint(sk)
    ensures same <==> t == it
    decreases sk
  {
    match item
    case Scalar(x) => t == x
    case Slice(items) =>
      && t.List? && |t.items| == |items|
      && forall i :: 0 <= i < |items| ==> DeepEqual(t.items[i], items[i], sk.items[i], it.items[i])
    case Ref(node) =>
      && t.Map? && t.fields.Keys == node.fields.Keys
      && forall k :: k in node.fields ==> DeepEqual(t.fields[k], node.fields[k], sk.kids[k], it.fields[k])
  }

  /** CompareResponses when neither server returned an error: normalize both, rewrite one in place, compare exactly. */
  method CompareResponses(mongoResult: Raw, dumbodbResult: Raw, show: Printer) returns (matches: bool)
    ensures matches <==> Tolerates(Normalize(mongoResult, show), Normalize(dumbodbResult, show))
  {
    var mongo, tree := Normalize(mongoResult, show), Normalize(dumbodbResult, show);
    var dumbodb, sk, nodes := BuildItem(dumbodbResult, show);
    HarmonizeMillis(mongo, dumbodb, sk, tree, Footprint(sk));
    HarmonizingDecidesTolerance(mongo, tree);
    matches := DeepEqual(mongo, dumbodb, sk, Harmonized(mongo, tree));
  }
}
