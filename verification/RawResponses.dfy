/** harness/compare.go: which responses normalization does not tell apart. */
module RawResponses {
  import opened ResponseCompare

  predicate IsContainer(v: Raw) {
    v.RawDoc? || v.RawMap?
  }

  /** The entries of a document: the last field with a key wins. */
  function LastFields(fields: seq<RawField>): (m: map<string, Raw>)
    ensures forall k :: k in m ==> exists i :: 0 <= i < |fields| && fields[i] == RawField(k, m[k])
  {
    if fields == [] then map[]
    else
      var m, last := LastFields(fields[..|fields| - 1]), fields[|fields| - 1];
      assert fields[|fields| - 1] == RawField(last.key, last.value);
      m[last.key := last.value]
  }

  function Entries(v: Raw): map<string, Raw>
    requires IsContainer(v)
  {
    if v.RawMap? then v.entries else LastFields(v.fields)
  }

  /** An entry of a document or map; it is a part of it. */
  function EntryOf(v: Raw, key: string): (r: Raw)
    requires IsContainer(v) && key in Entries(v)
    ensures r == Entries(v)[key] && r < v
  {
    var r := Entries(v)[key];
    assert v.RawDoc? ==> exists i :: 0 <= i < |v.fields| && v.fields[i] == RawField(key, r);
    r
  }

  // ---------------------------------------------------------------- what is told apart

  /** The same response, except for the order of fields, shadowed fields, documents given as maps, the values
      of ignored fields, and leaves that are shown alike. */
  ghost predicate Alike(a: Raw, b: Raw, show: Printer)
    decreases a
  {
    if IsContainer(a) then
      && IsContainer(b) && Entries(a).Keys == Entries(b).Keys
      && forall k :: k in Entries(a) && k !in IGNORED_FIELDS ==> Alike(EntryOf(a, k), EntryOf(b, k), show)
    else if a.RawList? then
      && b.RawList? && |a.items| == |b.items|
      && forall i :: 0 <= i < |a.items| ==> Alike(a.items[i], b.items[i], show)
    else
      IsLeaf(b) && (a == b || (Shown(a, show) != [] && Shown(a, show) == Shown(b, show)))
  }

  /** What an entry normalizes to. */
  function NormalEntry(v: Raw, key: string, show: Printer): Tree
    requires IsContainer(v) && key in Entries(v)
  {
    if key in IGNORED_FIELDS then IGNORED else Normalize(EntryOf(v, key), show)
  }

  /** m holds what the values of last normalize to. */
  ghost predicate Mirrors(m: map<string, Tree>, last: map<string, Raw>, show: Printer) {
    && m.Keys == last.Keys
    && forall k :: k in m ==> m[k] == if k in IGNORED_FIELDS then IGNORED else Normalize(last[k], show)
  }

  lemma MirrorsUpdate(m: map<string, Tree>, last: map<string, Raw>, key: string, value: Raw, show: Printer)
    requires Mirrors(m, last, show)
    ensures var normal := if key in IGNORED_FIELDS then IGNORED else Normalize(value, show);
            Mirrors(m[key := normal], last[key := value], show)
  {
  }

  lemma LastFieldsSnoc(fields: seq<RawField>, f: RawField)
    ensures LastFields(fields + [f]) == LastFields(fields)[f.key := f.value]
  {
    assert (fields + [f])[..|fields|] == fields;
  }

  lemma {:induction false} NormalFields(v: Raw, n: nat, show: Printer)
    requires v.RawDoc? && n <= |v.fields|
    ensures Mirrors(NormalizeFields(v, n, show), LastFields(v.fields[..n]), show)
  {
    if n > 0 {
      var f := v.fields[n - 1];
      NormalFields(v, n - 1, show);
      assert v.fields[..n] == v.fields[..n - 1] + [f];
      LastFieldsSnoc(v.fields[..n - 1], f);
      MirrorsUpdate(NormalizeFields(v, n - 1, show), LastFields(v.fields[..n - 1]), f.key, f.value, show);
    }
  }

  /** A document or map normalizes entry by entry. */
  lemma NormalContainer(v: Raw, show: Printer)
    requires IsContainer(v)
    ensures Normalize(v, show).Map? && Normalize(v, show).fields.Keys == Entries(v).Keys
    ensures forall k :: k in Entries(v) ==> Normalize(v, show).fields[k] == NormalEntry(v, k, show)
  {
    if v.RawDoc? {
      NormalFields(v, |v.fields|, show);
      assert v.fields[..|v.fields|] == v.fields;
    }
  }

  lemma ContainersEqual(a: Raw, b: Raw, show: Printer)
    requires IsContainer(a) && IsContainer(b)
    ensures Normalize(a, show) == Normalize(b, show) <==>
            && Entries(a).Keys == Entries(b).Keys
            && forall k :: k in Entries(a).Keys * Entries(b).Keys ==> NormalEntry(a, k, show) == NormalEntry(b, k, show)
  {
    NormalContainer(a, show);
    NormalContainer(b, show);
    var na, nb := Normalize(a, show).fields, Normalize(b, show).fields;
    if Entries(a).Keys == Entries(b).Keys {
      forall k | k in Entries(a).Keys * Entries(b).Keys
        ensures na[k] == nb[k] <==> NormalEntry(a, k, show) == NormalEntry(b, k, show) {}
      assert na == nb <==> forall k :: k in Entries(a).Keys * Entries(b).Keys ==> na[k] == nb[k];
    }
  }

  ghost predicate EntryAlike(a: Raw, b: Raw, k: string, show: Printer)
    requires IsContainer(a) && IsContainer(b) && k in Entries(a) && k in Entries(b)
  {
    k !in IGNORED_FIELDS ==> Alike(EntryOf(a, k), EntryOf(b, k), show)
  }

  lemma ContainersAlike(a: Raw, b: Raw, show: Printer)
    requires IsContainer(a) && IsContainer(b)
    ensures Alike(a, b, show) <==>
            && Entries(a).Keys == Entries(b).Keys
            && forall k :: k in Entries(a).Keys * Entries(b).Keys ==> EntryAlike(a, b, k, show)
  {
    if Alike(a, b, show) {
      forall k | k in Entries(a).Keys * Entries(b).Keys ensures EntryAlike(a, b, k, show) { assert k in Entries(a); }
    }
    if Entries(a).Keys == Entries(b).Keys
       && forall k :: k in Entries(a).Keys * Entries(b).Keys ==> EntryAlike(a, b, k, show)
    {
      forall k | k in Entries(a) && k !in IGNORED_FIELDS ensures Alike(EntryOf(a, k), EntryOf(b, k), show) {
        assert k in Entries(a).Keys * Entries(b).Keys && EntryAlike(a, b, k, show);
      }
    }
  }

  lemma ListsEqual(a: Raw, b: Raw, show: Printer)
    requires a.RawList? && b.RawList? && |a.items| == |b.items|
    ensures Normalize(a, show) == Normalize(b, show) <==>
            forall i :: 0 <= i < |a.items| ==> Normalize(a.items[i], show) == Normalize(b.items[i], show)
  {
    var na, nb := Normalize(a, show).items, Normalize(b, show).items;
    assert forall i :: 0 <= i < |a.items| ==> na[i] == Normalize(a.items[i], show);
    assert forall i :: 0 <= i < |a.items| ==> nb[i] == Normalize(b.items[i], show);
    assert na == nb <==> forall i :: 0 <= i < |a.items| ==> na[i] == nb[i];
  }

  lemma ListsAlike(a: Raw, b: Raw, show: Printer)
    requires a.RawList? && b.RawList? && |a.items| == |b.items|
    requires forall i :: 0 <= i < |a.items| ==>
               (Normalize(a.items[i], show) == Normalize(b.items[i], show) <==> Alike(a.items[i], b.items[i], show))
    ensures Alike(a, b, show) <==>
            forall i :: 0 <= i < |a.items| ==> Normalize(a.items[i], show) == Normalize(b.items[i], show)
  {
    if Alike(a, b, show) {
      forall i | 0 <= i < |a.items| ensures Normalize(a.items[i], show) == Normalize(b.items[i], show) {
        assert Alike(a.items[i], b.items[i], show);
      }
    }
    if forall i :: 0 <= i < |a.items| ==> Normalize(a.items[i], show) == Normalize(b.items[i], show) {
      forall i | 0 <= i < |a.items| ensures Alike(a.items[i], b.items[i], show) {
        assert Normalize(a.items[i], show) == Normalize(b.items[i], show);
      }
    }
  }

  /** Normalization forgets exactly what makes no difference between alike responses. */
  lemma {:induction false} NormalizeForgetsExactly(a: Raw, b: Raw, show: Printer)
    ensures Normalize(a, show) == Normalize(b, show) <==> Alike(a, b, show)
    decreases a
  {
    if IsContainer(a) && IsContainer(b) {
      ContainersEqual(a, b, show);
      ContainersAlike(a, b, show);
      forall k | k in Entries(a).Keys * Entries(b).Keys
        ensures NormalEntry(a, k, show) == NormalEntry(b, k, show) <==> EntryAlike(a, b, k, show)
      {
        if k !in IGNORED_FIELDS { NormalizeForgetsExactly(EntryOf(a, k), EntryOf(b, k), show); }
      }
    } else if a.RawList? && b.RawList? {
      if |a.items| == |b.items| {
        ListsEqual(a, b, show);
        forall i | 0 <= i < |a.items|
          ensures Normalize(a.items[i], show) == Normalize(b.items[i], show) <==> Alike(a.items[i], b.items[i], show)
        {
          NormalizeForgetsExactly(a.items[i], b.items[i], show);
        }
        ListsAlike(a, b, show);
      } else {
        assert |Normalize(a, show).items| != |Normalize(b, show).items|;
      }
    } else if IsLeaf(a) && IsLeaf(b) {
      LeavesMatchIff(a, b, show);
    } else {
      DifferentShapes(a, b, show);
    }
  }

  lemma DifferentShapes(a: Raw, b: Raw, show: Printer)
    requires IsContainer(a) != IsContainer(b) || a.RawList? != b.RawList?
    ensures Normalize(a, show) != Normalize(b, show) && !Alike(a, b, show)
  {
  }

  /** Alike responses match, whichever server gave which. */
  lemma AlikeResponsesMatch(a: Raw, b: Raw, show: Printer)
    requires Alike(a, b, show)
    ensures Tolerates(Normalize(a, show), Normalize(b, show)) && Tolerates(Normalize(b, show), Normalize(a, show))
  {
    NormalizeForgetsExactly(a, b, show);
    ToleratesItself(Normalize(a, show));
  }
}
