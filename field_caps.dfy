/** Field capabilities merged across indices: a builder folds what each index
    reports for one field, and `build` summarises it, listing the indices
    that disagree. Also the parser constructor's defaults and the field order
    of the wire format, by version. */
module FieldCaps {
  import opened Wrappers

  /** A time-series metric type, identified by its enum constant's name. */
  datatype MetricType = MetricType(name: string)

  /** What one index reports for the field. */
  datatype IndexCaps = IndexCaps(name: string, isSearchable: bool, isAggregatable: bool,
                                 isDimension: bool, metricType: Option<MetricType>)

  /** The arguments of one `add` call. */
  datatype AddCall = AddCall(index: string, isMetadataField: bool, search: bool, agg: bool,
                             isDimension: bool, metricType: Option<MetricType>, meta: map<string, string>)

  /** The merged capabilities of a field. A list is None where the source
      holds null. */
  datatype FieldCapabilities = FieldCapabilities(
    name: string,
    fieldType: string,
    isMetadataField: bool,
    isSearchable: bool,
    isAggregatable: bool,
    isDimension: bool,
    metricType: Option<MetricType>,
    indices: Option<seq<string>>,
    nonSearchableIndices: Option<seq<string>>,
    nonAggregatableIndices: Option<seq<string>>,
    nonDimensionIndices: Option<seq<string>>,
    metricConflictsIndices: Option<seq<string>>,
    meta: map<string, set<string>>)

  // ---------------------------------------------------------------------
  // String order (String.compareTo)
  // ---------------------------------------------------------------------

  /** Lexicographic order on strings, a proper prefix first. */
  predicate LexLeq(a: string, b: string)
  {
    |a| == 0 || (|b| > 0 && (a[0] < b[0] || (a[0] == b[0] && LexLeq(a[1..], b[1..]))))
  }

  lemma {:induction false} LexTotal(a: string, b: string)
    ensures LexLeq(a, b) || LexLeq(b, a)
  {
    if |a| > 0 && |b| > 0 && a[0] == b[0] {
      LexTotal(a[1..], b[1..]);
    }
  }

  lemma {:induction false} LexTrans(a: string, b: string, c: string)
    requires LexLeq(a, b) && LexLeq(b, c)
    ensures LexLeq(a, c)
  {
    if |a| > 0 && a[0] == b[0] && b[0] == c[0] {
      LexTrans(a[1..], b[1..], c[1..]);
    }
  }

  lemma {:induction false} LexAntisymmetric(a: string, b: string)
    requires LexLeq(a, b) && LexLeq(b, a)
    ensures a == b
  {
    if |a| > 0 {
      LexAntisymmetric(a[1..], b[1..]);
      assert a == [a[0]] + a[1..] && b == [b[0]] + b[1..];
    }
  }

  predicate SortedByName(list: seq<IndexCaps>)
  {
    forall p, q :: 0 <= p < q < |list| ==> LexLeq(list[p].name, list[q].name)
  }

  predicate SortedStrings(s: seq<string>)
  {
    forall p, q :: 0 <= p < q < |s| ==> LexLeq(s[p], s[q])
  }

  /** Collections.sort of the entries by name: a stable insertion sort. */
  method SortByName(list: seq<IndexCaps>) returns (sorted: seq<IndexCaps>)
    ensures SortedByName(sorted)
    ensures multiset(sorted) == multiset(list)
  {
    sorted := list;
    var i := 0;
    while i < |sorted|
      invariant 0 <= i <= |sorted| == |list|
      invariant forall p, q :: 0 <= p < q < i ==> LexLeq(sorted[p].name, sorted[q].name)
      invariant multiset(sorted) == multiset(list)
    {
      var j := i;
      while j > 0 && !LexLeq(sorted[j - 1].name, sorted[j].name)
        invariant 0 <= j <= i < |sorted| == |list|
        invariant forall p, q :: 0 <= p < q <= i && q != j ==> LexLeq(sorted[p].name, sorted[q].name)
        invariant forall q :: j < q <= i ==> LexLeq(sorted[j].name, sorted[q].name)
        invariant multiset(sorted) == multiset(list)
      {
        LexTotal(sorted[j - 1].name, sorted[j].name);
        sorted := sorted[j - 1 := sorted[j]][j := sorted[j - 1]];
        j := j - 1;
      }
      forall p, q | 0 <= p < q <= i
        ensures LexLeq(sorted[p].name, sorted[q].name)
      {
        if q == j && p < j - 1 {
          LexTrans(sorted[p].name, sorted[j - 1].name, sorted[j].name);
        }
      }
      i := i + 1;
    }
  }

  // ---------------------------------------------------------------------
  // Specification of the merged state
  // ---------------------------------------------------------------------

  function CapsOf(c: AddCall): IndexCaps
  {
    IndexCaps(c.index, c.search, c.agg, c.isDimension, c.metricType)
  }

  function CapsList(calls: seq<AddCall>): (list: seq<IndexCaps>)
    ensures |list| == |calls| && forall i :: 0 <= i < |calls| ==> list[i] == CapsOf(calls[i])
  {
    seq(|calls|, i requires 0 <= i < |calls| => CapsOf(calls[i]))
  }

  /** The merged metric type of the entries: their common value when they all
      agree, null when two of them differ (and null when there are none). */
  predicate MetricMerged(list: seq<IndexCaps>, m: Option<MetricType>)
  {
    && (|list| == 0 ==> m.None?)
    && ((forall c :: c in list ==> c.metricType == m)
        || (m.None? && exists c, d :: c in list && d in list && c.metricType != d.metricType))
  }

  /** At most one metric type is the merged one. */
  lemma MetricMergedUnique(list: seq<IndexCaps>, m1: Option<MetricType>, m2: Option<MetricType>)
    requires MetricMerged(list, m1) && MetricMerged(list, m2)
    ensures m1 == m2
  {
    if list != [] {
      assert list[0] in list;
    }
  }

  /** Once the merged metric type is null after some entries, it stays null
      whatever is added after them. */
  lemma MetricStaysUnset(list: seq<IndexCaps>, more: seq<IndexCaps>, m: Option<MetricType>)
    requires list != [] && MetricMerged(list, None)
    requires MetricMerged(list + more, m)
    ensures m.None?
  {
    assert list[0] in list + more;
    if !(forall c :: c in list ==> c.metricType == None) {
      if forall c, d :: c in list && d in list ==> c.metricType == d.metricType {
        assert false;
      }
      var c, d :| c in list && d in list && c.metricType != d.metricType;
      assert c in list + more && d in list + more;
    }
  }

  /** Reordering the entries keeps which entries there are. */
  lemma PermutationMembers(a: seq<IndexCaps>, b: seq<IndexCaps>)
    requires multiset(a) == multiset(b)
    ensures forall c :: c in a <==> c in b
  {
    forall c ensures c in a <==> c in b {
      assert c in a <==> c in multiset(a);
      assert c in b <==> c in multiset(b);
    }
  }

  /** The meta keys reported by any call. */
  function MetaKeys(calls: seq<AddCall>): set<string>
  {
    set i, k | 0 <= i < |calls| && k in calls[i].meta :: k
  }

  /** The values reported for key `k` across the calls. */
  function MetaValues(calls: seq<AddCall>, k: string): set<string>
  {
    set i | 0 <= i < |calls| && k in calls[i].meta :: calls[i].meta[k]
  }

  /** Each key mapped to exactly the set of values seen for it. */
  function MergedMeta(calls: seq<AddCall>): map<string, set<string>>
  {
    map k | k in MetaKeys(calls) :: MetaValues(calls, k)
  }

  /** One call's meta merged in: each of its keys gains its value. */
  function MetaUnion(meta: map<string, set<string>>, add: map<string, string>): map<string, set<string>>
  {
    map k | k in meta.Keys + add.Keys :: (if k in meta then meta[k] else {}) + (if k in add then {add[k]} else {})
  }

  lemma MetaKeysAppend(calls: seq<AddCall>, c: AddCall)
    ensures MetaKeys(calls + [c]) == MetaKeys(calls) + c.meta.Keys
  {
    var all := calls + [c];
    forall k | k in c.meta ensures k in MetaKeys(all) {
      assert all[|calls|] == c;
    }
    forall k | k in MetaKeys(calls) ensures k in MetaKeys(all) {
      var i :| 0 <= i < |calls| && k in calls[i].meta;
      assert all[i] == calls[i];
    }
    forall k | k in MetaKeys(all) ensures k in MetaKeys(calls) + c.meta.Keys {
      var i :| 0 <= i < |all| && k in all[i].meta;
      if i < |calls| {
        assert all[i] == calls[i];
      }
    }
  }

  lemma MetaValuesAppend(calls: seq<AddCall>, c: AddCall, k: string)
    ensures MetaValues(calls + [c], k) == MetaValues(calls, k) + (if k in c.meta then {c.meta[k]} else {})
  {
    var all := calls + [c];
    forall v | v in MetaValues(calls, k) ensures v in MetaValues(all, k) {
      var i :| 0 <= i < |calls| && k in calls[i].meta && calls[i].meta[k] == v;
      assert all[i] == calls[i];
    }
    if k in c.meta {
      assert all[|calls|] == c;
    }
    forall v | v in MetaValues(all, k) ensures v in MetaValues(calls, k) + (if k in c.meta then {c.meta[k]} else {}) {
      var i :| 0 <= i < |all| && k in all[i].meta && all[i].meta[k] == v;
      if i < |calls| {
        assert all[i] == calls[i];
      }
    }
  }

  /** A key with a reported value is a reported key. */
  lemma MetaValuesKey(calls: seq<AddCall>, k: string)
    ensures MetaValues(calls, k) != {} ==> k in MetaKeys(calls)
  {
    if v :| v in MetaValues(calls, k) {
      var i :| 0 <= i < |calls| && k in calls[i].meta && calls[i].meta[k] == v;
    }
  }

  /** Merging one more call's meta map into the merged meta of the earlier
      calls gives the merged meta of all of them. */
  lemma MergedMetaAppend(calls: seq<AddCall>, c: AddCall)
    ensures MergedMeta(calls + [c]) == MetaUnion(MergedMeta(calls), c.meta)
  {
    var lhs := MergedMeta(calls + [c]);
    var rhs := MetaUnion(MergedMeta(calls), c.meta);
    MetaKeysAppend(calls, c);
    assert lhs.Keys == rhs.Keys;
    forall k | k in lhs.Keys ensures lhs[k] == rhs[k] {
      MetaValuesAppend(calls, c, k);
      MetaValuesKey(calls, k);
    }
  }

  // ---------------------------------------------------------------------
  // build's summary (stream expressions)
  // ---------------------------------------------------------------------

  datatype Flag = Searchable | Aggregatable | Dimension

  function HasFlag(c: IndexCaps, f: Flag): bool
  {
    match f
    case Searchable => c.isSearchable
    case Aggregatable => c.isAggregatable
    case Dimension => c.isDimension
  }

  /** The names of the entries, in order. */
  function Names(list: seq<IndexCaps>): (names: seq<string>)
    ensures |names| == |list| && forall i :: 0 <= i < |list| ==> names[i] == list[i].name
  {
    seq(|list|, i requires 0 <= i < |list| => list[i].name)
  }

  /** The names of the entries lacking flag `f`, in order. */
  lemma NamesAppend(list: seq<IndexCaps>, c: IndexCaps)
    ensures Names(list + [c]) == Names(list) + [c.name]
  {
  }

  function NamesWithout(list: seq<IndexCaps>, f: Flag): seq<string>
  {
    if list == [] then []
    else (if HasFlag(list[0], f) then [] else [list[0].name]) + NamesWithout(list[1..], f)
  }

  /** The list of indices lacking a flag: present only when the merged flag is
      false and some index has it. */
  function ConflictList(merged: bool, list: seq<IndexCaps>, f: Flag): Option<seq<string>>
  {
    if !merged && exists c :: c in list && HasFlag(c, f) then Some(NamesWithout(list, f)) else None
  }

  /** All indices, when some index's metric type differs from the merged one. */
  function MetricConflicts(merged: Option<MetricType>, list: seq<IndexCaps>): Option<seq<string>>
  {
    if exists c :: c in list && c.metricType != merged then Some(Names(list)) else None
  }

  /** The result of `build` from the merged fields. */
  function Summarize(name: string, fieldType: string, m: Merge, withIndices: bool): FieldCapabilities
  {
    FieldCapabilities(
      name, fieldType, m.isMetadataField, m.isSearchable, m.isAggregatable, m.isDimension, m.metricType,
      if withIndices then Some(Names(m.indiceList)) else None,
      ConflictList(m.isSearchable, m.indiceList, Searchable),
      ConflictList(m.isAggregatable, m.indiceList, Aggregatable),
      ConflictList(m.isDimension, m.indiceList, Dimension),
      MetricConflicts(m.metricType, m.indiceList),
      m.meta)
  }

  lemma {:induction false} NamesWithoutMembers(list: seq<IndexCaps>, f: Flag)
    ensures forall n :: n in NamesWithout(list, f) <==> exists c :: c in list && !HasFlag(c, f) && c.name == n
  {
    if list != [] {
      NamesWithoutMembers(list[1..], f);
      assert list == [list[0]] + list[1..];
      var head := if HasFlag(list[0], f) then [] else [list[0].name];
      var rest := NamesWithout(list[1..], f);
      assert NamesWithout(list, f) == head + rest;
      forall n | n in NamesWithout(list, f) ensures exists c :: c in list && !HasFlag(c, f) && c.name == n {
        if n in head {
          assert list[0] in list;
        } else {
          assert n in rest;
          if forall c :: !(c in list[1..] && !HasFlag(c, f) && c.name == n) {
            assert false;
          }
          var c :| c in list[1..] && !HasFlag(c, f) && c.name == n;
          assert c in list;
        }
      }
      forall n | exists c :: c in list && !HasFlag(c, f) && c.name == n ensures n in NamesWithout(list, f) {
        var c :| c in list && !HasFlag(c, f) && c.name == n;
        if c != list[0] {
          assert c in list[1..];
          assert n in rest;
        }
      }
    }
  }

  lemma {:induction false} NamesWithoutSorted(list: seq<IndexCaps>, f: Flag)
    requires SortedByName(list)
    ensures SortedStrings(NamesWithout(list, f))
  {
    if list != [] {
      var rest := NamesWithout(list[1..], f);
      NamesWithoutSorted(list[1..], f);
      NamesWithoutMembers(list[1..], f);
      forall n | n in rest ensures LexLeq(list[0].name, n) {
        if forall c :: !(c in list[1..] && !HasFlag(c, f) && c.name == n) {
          assert false;
        }
        var c :| c in list[1..] && !HasFlag(c, f) && c.name == n;
        var q :| 0 <= q < |list[1..]| && list[1..][q] == c;
        assert list[q + 1] == c;
      }
      var head := if HasFlag(list[0], f) then [] else [list[0].name];
      var s := head + rest;
      forall p, q | 0 <= p < q < |s| ensures LexLeq(s[p], s[q]) {
        if head != [] && p == 0 {
          assert s[q] == rest[q - 1] && s[q] in rest;
        } else {
          assert s[p] == rest[p - |head|] && s[q] == rest[q - |head|];
        }
      }
    }
  }

  /** A conflict list is present iff some index has the flag and some lacks
      it; it then names exactly the indices lacking it, in the entries'
      order, so sorted when the entries are. */
  lemma ConflictListCases(merged: bool, list: seq<IndexCaps>, f: Flag)
    requires merged <==> forall c :: c in list ==> HasFlag(c, f)
    ensures var r := ConflictList(merged, list, f);
            && (r.Some? <==> (exists c :: c in list && HasFlag(c, f)) && (exists c :: c in list && !HasFlag(c, f)))
            && (r.Some? ==> forall n :: n in r.value <==> exists c :: c in list && !HasFlag(c, f) && c.name == n)
            && (r.Some? && SortedByName(list) ==> SortedStrings(r.value))
  {
    NamesWithoutMembers(list, f);
    if SortedByName(list) {
      NamesWithoutSorted(list, f);
    }
  }

  /** The metric-conflict list is present iff two indices report different
      metric types, and then lists every index. */
  lemma MetricConflictsCases(list: seq<IndexCaps>, merged: Option<MetricType>)
    requires MetricMerged(list, merged)
    ensures var r := MetricConflicts(merged, list);
            && (r.Some? <==> exists c, d :: c in list && d in list && c.metricType != d.metricType)
            && (r.Some? ==> r.value == Names(list))
  {
    if exists c, d :: c in list && d in list && c.metricType != d.metricType {
      var c, d :| c in list && d in list && c.metricType != d.metricType;
      if c.metricType == merged {
        assert d.metricType != merged;
      }
    }
  }

  // ---------------------------------------------------------------------
  // The builder
  // ---------------------------------------------------------------------

  /** The builder's merged fields, as a value. */
  datatype Merge = Merge(isMetadataField: bool, isSearchable: bool, isAggregatable: bool, isDimension: bool,
                         metricType: Option<MetricType>, metricTypeIsSet: bool,
                         indiceList: seq<IndexCaps>, meta: map<string, set<string>>)

  /** The state of a fresh builder. */
  const Initial := Merge(false, true, true, true, None, false, [], map[])

  /** What one `add` call does to the merged fields. */
  function AddStep(s: Merge, c: AddCall): Merge
  {
    Merge(s.isMetadataField || c.isMetadataField,
          s.isSearchable && c.search,
          s.isAggregatable && c.agg,
          s.isDimension && c.isDimension,
          if !s.metricTypeIsSet then c.metricType else if s.metricType != c.metricType then None else s.metricType,
          true,
          s.indiceList + [CapsOf(c)],
          MetaUnion(s.meta, c.meta))
  }

  /** Every merged field is what the calls make of it: the flags are the
      conjunction (metadata: the disjunction) over the calls, the metric type
      the common one or null, the meta map the values seen per key, and the
      entries are the calls' entries in some order. */
  ghost predicate Merged(calls: seq<AddCall>, s: Merge)
  {
    && multiset(s.indiceList) == multiset(CapsList(calls))
    && (s.isSearchable <==> forall c :: c in s.indiceList ==> c.isSearchable)
    && (s.isAggregatable <==> forall c :: c in s.indiceList ==> c.isAggregatable)
    && (s.isDimension <==> forall c :: c in s.indiceList ==> c.isDimension)
    && (s.isMetadataField <==> exists i :: 0 <= i < |calls| && calls[i].isMetadataField)
    && (s.metricTypeIsSet <==> |s.indiceList| > 0)
    && MetricMerged(s.indiceList, s.metricType)
    && s.meta == MergedMeta(calls)
  }

  lemma InitialMerged()
    ensures Merged([], Initial)
  {
  }

  lemma MetricStep(list: seq<IndexCaps>, m: Option<MetricType>, c: IndexCaps)
    requires MetricMerged(list, m)
    ensures MetricMerged(list + [c], if list == [] then c.metricType else if m != c.metricType then None else m)
  {
    var all := list + [c];
    assert c in all;
    assert forall x :: x in all <==> x in list || x == c;
    if list != [] && m != c.metricType {
      if forall x :: x in list ==> x.metricType == m {
        assert list[0] in all;
      } else {
        if forall x, y :: x in list && y in list ==> x.metricType == y.metricType {
          assert false;
        }
        var x, y :| x in list && y in list && x.metricType != y.metricType;
        assert x in all && y in all;
      }
    }
  }

  lemma MetadataStep(calls: seq<AddCall>, c: AddCall)
    ensures (exists i :: 0 <= i < |calls + [c]| && (calls + [c])[i].isMetadataField)
            <==> (exists i :: 0 <= i < |calls| && calls[i].isMetadataField) || c.isMetadataField
  {
    var all := calls + [c];
    if exists i :: 0 <= i < |calls| && calls[i].isMetadataField {
      var i :| 0 <= i < |calls| && calls[i].isMetadataField;
      assert all[i] == calls[i];
    }
    if c.isMetadataField {
      assert all[|calls|] == c;
    }
  }

  /** An `add` call keeps every merged field what the calls make of it. */
  lemma AddStepMerged(calls: seq<AddCall>, s: Merge, c: AddCall)
    requires Merged(calls, s)
    ensures Merged(calls + [c], AddStep(s, c))
  {
    var t := AddStep(s, c);
    assert CapsList(calls + [c]) == CapsList(calls) + [CapsOf(c)];
    assert forall x :: x in t.indiceList <==> x in s.indiceList || x == CapsOf(c);
    MetricStep(s.indiceList, s.metricType, CapsOf(c));
    MetadataStep(calls, c);
    MergedMetaAppend(calls, c);
  }

  /** Reordering the entries keeps every merged field what the calls make of it. */
  lemma ReorderMerged(calls: seq<AddCall>, s: Merge, list: seq<IndexCaps>)
    requires Merged(calls, s) && multiset(list) == multiset(s.indiceList)
    ensures Merged(calls, s.(indiceList := list))
  {
    assert |list| == |multiset(list)| == |multiset(s.indiceList)| == |s.indiceList|;
    PermutationMembers(list, s.indiceList);
    MetricMergedReorder(s.indiceList, list, s.metricType);
  }

  lemma MetricMergedReorder(list: seq<IndexCaps>, other: seq<IndexCaps>, m: Option<MetricType>)
    requires MetricMerged(list, m) && |other| == |list| && forall c :: c in list <==> c in other
    ensures MetricMerged(other, m)
  {
    if exists c, d :: c in list && d in list && c.metricType != d.metricType {
      var c, d :| c in list && d in list && c.metricType != d.metricType;
      assert c in other && d in other;
    }
  }

  /** The merge of any sequence of `add` calls from a fresh builder, folded
      from the left. */
  function AddAll(calls: seq<AddCall>): Merge
  {
    if calls == [] then Initial else AddStep(AddAll(calls[..|calls| - 1]), calls[|calls| - 1])
  }

  lemma AddAllAppend(calls: seq<AddCall>, c: AddCall)
    ensures AddAll(calls + [c]) == AddStep(AddAll(calls), c)
  {
    assert (calls + [c])[..|calls|] == calls;
  }

  /** `s` holds the fold of `calls`, its entries in some order (`build`
      sorts them). */
  ghost predicate Folded(calls: seq<AddCall>, s: Merge)
  {
    var f := AddAll(calls);
    && s.isMetadataField == f.isMetadataField
    && s.isSearchable == f.isSearchable
    && s.isAggregatable == f.isAggregatable
    && s.isDimension == f.isDimension
    && s.metricType == f.metricType
    && s.metricTypeIsSet == f.metricTypeIsSet
    && s.meta == f.meta
    && multiset(s.indiceList) == multiset(f.indiceList)
  }

  lemma FoldedStep(calls: seq<AddCall>, s: Merge, c: AddCall)
    requires Folded(calls, s)
    ensures Folded(calls + [c], AddStep(s, c))
  {
    AddAllAppend(calls, c);
  }

  /** After any sequence of `add` calls every merged field is what the calls
      make of it, and the entries are in call order. */
  lemma {:induction false} AddAllMerged(calls: seq<AddCall>)
    ensures Merged(calls, AddAll(calls))
  {
    if calls == [] {
      InitialMerged();
    } else {
      var init, c := calls[..|calls| - 1], calls[|calls| - 1];
      assert calls == init + [c];
      AddAllMerged(init);
      AddStepMerged(init, AddAll(init), c);
    }
  }

  /** The fold keeps the entries in call order. */
  lemma {:induction false} AddAllEntries(calls: seq<AddCall>)
    ensures AddAll(calls).indiceList == CapsList(calls)
  {
    if calls != [] {
      var init, c := calls[..|calls| - 1], calls[|calls| - 1];
      assert calls == init + [c];
      AddAllEntries(init);
    }
  }

  /** `getIndices` before `build`: the names of the added indices, in call
      order. */
  lemma AddAllIndices(calls: seq<AddCall>)
    ensures |Names(AddAll(calls).indiceList)| == |calls|
    ensures forall i :: 0 <= i < |calls| ==> Names(AddAll(calls).indiceList)[i] == calls[i].index
  {
    AddAllEntries(calls);
  }

  /** Collects one field's capabilities across indices. The builder's
      merged fields (the four flags, the metric type and whether it is set,
      the entries and the meta map) are kept together in `merged`, which
      every operation replaces as a whole. */
  class Builder {
    const name: string
    const fieldType: string
    var merged: Merge
    /** The `add` calls so far. */
    ghost var calls: seq<AddCall>

    /** The merged fields are the fold of the calls so far, the entries in
        some order. */
    ghost predicate Valid()
      reads this
    {
      Folded(calls, merged)
    }

    constructor (name: string, fieldType: string)
      ensures Valid() && calls == [] && merged == Initial
      ensures this.name == name && this.fieldType == fieldType
    {
      this.name := name;
      this.fieldType := fieldType;
      this.merged := Merge(false, true, true, true, None, false, [], map[]);
      this.calls := [];
    }

    /** Collect the capabilities one index reports. */
    method Add(index: string, metadataField: bool, search: bool, agg: bool, dimension: bool,
               metric: Option<MetricType>, indexMeta: map<string, string>)
      requires Valid()
      modifies this
      ensures calls == old(calls) + [AddCall(index, metadataField, search, agg, dimension, metric, indexMeta)]
      ensures merged.indiceList == old(merged.indiceList) + [IndexCaps(index, search, agg, dimension, metric)]
      ensures GetIndices() == old(GetIndices()) + [index]
      ensures Valid()
    {
      var m := merged;
      var mergedMeta := MergeMeta(m.meta, indexMeta);
      // the first index sets the metric type; a later one that disagrees clears it
      var mergedMetric := if !m.metricTypeIsSet then metric else if m.metricType != metric then None else m.metricType;
      var next := Merge(m.isMetadataField || metadataField, m.isSearchable && search, m.isAggregatable && agg,
                        m.isDimension && dimension, mergedMetric, true,
                        m.indiceList + [IndexCaps(index, search, agg, dimension, metric)], mergedMeta);
      ghost var call := AddCall(index, metadataField, search, agg, dimension, metric, indexMeta);
      assert next == AddStep(m, call);
      FoldedStep(calls, m, call);
      NamesAppend(m.indiceList, CapsOf(call));
      merged := next;
      calls := calls + [call];
    }

    /** The names of the entries, in their current order: the order of the
        `add` calls until `build` sorts them. */
    function GetIndices(): (names: seq<string>)
      reads this
      ensures |names| == |merged.indiceList|
      ensures forall i :: 0 <= i < |names| ==> names[i] == merged.indiceList[i].name
    {
      Names(merged.indiceList)
    }

    /** Sort the entries by name, then summarise. */
    method Build(withIndices: bool) returns (r: FieldCapabilities)
      requires Valid()
      modifies this
      ensures Valid() && calls == old(calls)
      ensures merged == old(merged).(indiceList := merged.indiceList)
      ensures SortedByName(merged.indiceList) && multiset(merged.indiceList) == multiset(old(merged.indiceList))
      ensures r == Summarize(name, fieldType, merged, withIndices)
    {
      var sorted := SortByName(merged.indiceList);
      merged := merged.(indiceList := sorted);
      r := Summarize(name, fieldType, merged, withIndices);
    }
  }

  /** `merged` is `meta` with the keys of `indexMeta` outside `pending`
      merged in. */
  ghost predicate PartlyMerged(merged: map<string, set<string>>, meta: map<string, set<string>>,
                               indexMeta: map<string, string>, pending: set<string>)
  {
    && pending <= indexMeta.Keys
    && merged.Keys == meta.Keys + (indexMeta.Keys - pending)
    && forall k :: k in merged ==>
         merged[k] == (if k in meta then meta[k] else {})
                      + (if k in indexMeta && k !in pending then {indexMeta[k]} else {})
  }

  lemma PartlyMergedStep(merged: map<string, set<string>>, meta: map<string, set<string>>,
                         indexMeta: map<string, string>, pending: set<string>, k: string)
    requires PartlyMerged(merged, meta, indexMeta, pending) && k in pending
    ensures PartlyMerged(merged[k := (if k in merged then merged[k] else {}) + {indexMeta[k]}],
                         meta, indexMeta, pending - {k})
  {
  }

  lemma PartlyMergedDone(merged: map<string, set<string>>, meta: map<string, set<string>>,
                         indexMeta: map<string, string>)
    requires PartlyMerged(merged, meta, indexMeta, {})
    ensures merged == MetaUnion(meta, indexMeta)
  {
    var union := MetaUnion(meta, indexMeta);
    assert merged.Keys == union.Keys;
    forall k | k in merged ensures merged[k] == union[k] {
    }
  }

  /** The loop of `add` over one call's meta entries: each key's value set
      gains the call's value, created empty when the key is new. */
  method MergeMeta(meta: map<string, set<string>>, indexMeta: map<string, string>) returns (merged: map<string, set<string>>)
    ensures merged == MetaUnion(meta, indexMeta)
  {
    merged := meta;
    var keys := indexMeta.Keys;
    while keys != {}
      invariant PartlyMerged(merged, meta, indexMeta, keys)
      decreases keys
    {
      if forall y :: y !in keys {
        assert false;
      }
      var k :| k in keys;
      PartlyMergedStep(merged, meta, indexMeta, keys, k);
      merged := merged[k := (if k in merged then merged[k] else {}) + {indexMeta[k]}];
      keys := keys - {k};
    }
    PartlyMergedDone(merged, meta, indexMeta);
  }

  /** Merged fields that hold the fold of the calls are what the calls make
      of them. */
  lemma FoldedMerged(calls: seq<AddCall>, s: Merge)
    requires Folded(calls, s)
    ensures Merged(calls, s)
  {
    var f := AddAll(calls);
    AddAllMerged(calls);
    ReorderMerged(calls, f, s.indiceList);
    assert s == f.(indiceList := s.indiceList);
  }

  /** The merged value of flag `f`. */
  function MergedFlag(s: Merge, f: Flag): bool
  {
    match f
    case Searchable => s.isSearchable
    case Aggregatable => s.isAggregatable
    case Dimension => s.isDimension
  }

  /** The list of indices lacking flag `f` in a summary. */
  function ConflictsOf(r: FieldCapabilities, f: Flag): Option<seq<string>>
  {
    match f
    case Searchable => r.nonSearchableIndices
    case Aggregatable => r.nonAggregatableIndices
    case Dimension => r.nonDimensionIndices
  }

  /** On the sorted entries, `build` lists the indices, sorted, exactly when
      asked to; and for each flag it gives a conflict list exactly when some
      index has the flag and some lacks it, the list then naming exactly the
      indices lacking it, sorted. */
  lemma BuildConflicts(calls: seq<AddCall>, s: Merge, name: string, fieldType: string, withIndices: bool, f: Flag)
    requires Folded(calls, s) && SortedByName(s.indiceList)
    ensures var r := Summarize(name, fieldType, s, withIndices);
            && (r.indices.Some? <==> withIndices)
            && (r.indices.Some? ==> r.indices.value == Names(s.indiceList) && SortedStrings(r.indices.value))
    ensures var l := ConflictsOf(Summarize(name, fieldType, s, withIndices), f);
            && (l.Some? <==> (exists c :: c in s.indiceList && HasFlag(c, f)) && (exists c :: c in s.indiceList && !HasFlag(c, f)))
            && (l.Some? ==> SortedStrings(l.value)
                            && forall n :: n in l.value <==> exists c :: c in s.indiceList && !HasFlag(c, f) && c.name == n)
  {
    FoldedMerged(calls, s);
    assert MergedFlag(s, f) <==> forall c :: c in s.indiceList ==> HasFlag(c, f);
    ConflictListCases(MergedFlag(s, f), s.indiceList, f);
  }

  /** `build` lists every index as a metric conflict exactly when two indices
      report different metric types. */
  lemma BuildMetricConflicts(calls: seq<AddCall>, s: Merge, name: string, fieldType: string, withIndices: bool)
    requires Folded(calls, s)
    ensures var r := Summarize(name, fieldType, s, withIndices);
            && (r.metricConflictsIndices.Some? <==>
                  exists c, d :: c in s.indiceList && d in s.indiceList && c.metricType != d.metricType)
            && (r.metricConflictsIndices.Some? ==> r.metricConflictsIndices.value == Names(s.indiceList))
  {
    FoldedMerged(calls, s);
    MetricConflictsCases(s.indiceList, s.metricType);
  }

  // ---------------------------------------------------------------------
  // Constructors
  // ---------------------------------------------------------------------

  /** The constructor for fields that are not time-series fields. */
  function NonTimeSeries(name: string, fieldType: string, isMetadataField: bool, isSearchable: bool,
                         isAggregatable: bool, indices: Option<seq<string>>,
                         nonSearchableIndices: Option<seq<string>>, nonAggregatableIndices: Option<seq<string>>,
                         meta: map<string, set<string>>): (r: FieldCapabilities)
    ensures !r.isDimension && r.metricType.None?
    ensures r.nonDimensionIndices.None? && r.metricConflictsIndices.None?
  {
    FieldCapabilities(name, fieldType, isMetadataField, isSearchable, isAggregatable, false, None,
                      indices, nonSearchableIndices, nonAggregatableIndices, None, None, meta)
  }

  /** The parser constructor: a missing metadata or dimension flag reads as
      false, a missing meta map as empty, and a metric type name must be one
      of `knownMetrics` (Enum.valueOf throws otherwise). */
  function FromParsed(name: string, fieldType: string, isMetadataField: Option<bool>, isSearchable: bool,
                      isAggregatable: bool, isDimension: Option<bool>, metricType: Option<string>,
                      indices: Option<seq<string>>, nonSearchableIndices: Option<seq<string>>,
                      nonAggregatableIndices: Option<seq<string>>, nonDimensionIndices: Option<seq<string>>,
                      metricConflictsIndices: Option<seq<string>>, meta: Option<map<string, set<string>>>,
                      knownMetrics: set<string>): (r: Result<FieldCapabilities, string>)
    ensures r.Success? <==> metricType.None? || metricType.value in knownMetrics
    ensures r.Success? ==>
              && (r.value.isMetadataField <==> isMetadataField == Some(true))
              && (r.value.isDimension <==> isDimension == Some(true))
              && (r.value.metricType.Some? <==> metricType.Some?)
              && (r.value.metricType.Some? ==> r.value.metricType.value.name == metricType.value)
              && r.value.meta == (if meta.Some? then meta.value else map[])
              && r.value.indices == indices && r.value.nonSearchableIndices == nonSearchableIndices
              && r.value.nonAggregatableIndices == nonAggregatableIndices
              && r.value.nonDimensionIndices == nonDimensionIndices
              && r.value.metricConflictsIndices == metricConflictsIndices
  {
    if metricType.Some? && metricType.value !in knownMetrics then
      Failure("No enum constant " + metricType.value)
    else
      Success(FieldCapabilities(
        name, fieldType,
        if isMetadataField.None? then false else isMetadataField.value,
        isSearchable, isAggregatable,
        if isDimension.None? then false else isDimension.value,
        if metricType.Some? then Some(MetricType(metricType.value)) else None,
        indices, nonSearchableIndices, nonAggregatableIndices, nonDimensionIndices, metricConflictsIndices,
        if meta.Some? then meta.value else map[]))
  }

  // ---------------------------------------------------------------------
  // Wire format: field order by version
  // ---------------------------------------------------------------------

  /** A transport version, by its numeric id. */
  type Version = int

  const V_8_0_0: Version := 8_00_00_99

  /** One value on the wire, tagged with how it was written. */
  datatype WireValue =
    | WString(s: string)
    | WBool(b: bool)
    | WOptionalEnum(m: Option<MetricType>)
    | WOptionalStringArray(a: Option<seq<string>>)
    | WMeta(meta: map<string, set<string>>)

  /** writeTo: the fields in wire order; the time-series fields only from
      8.0.0 on. */
  function WriteTo(fc: FieldCapabilities, version: Version): seq<WireValue>
  {
    [WString(fc.name), WString(fc.fieldType), WBool(fc.isMetadataField), WBool(fc.isSearchable), WBool(fc.isAggregatable)]
    + (if version >= V_8_0_0 then [WBool(fc.isDimension), WOptionalEnum(fc.metricType)] else [])
    + [WOptionalStringArray(fc.indices), WOptionalStringArray(fc.nonSearchableIndices),
       WOptionalStringArray(fc.nonAggregatableIndices)]
    + (if version >= V_8_0_0
       then [WOptionalStringArray(fc.nonDimensionIndices), WOptionalStringArray(fc.metricConflictsIndices)]
       else [])
    + [WMeta(fc.meta)]
  }

  /** The stream constructor: reads the fields in wire order, defaulting the
      time-series fields before 8.0.0; None when a value of the wrong kind or
      the end of the stream comes first. Returns what is left unread. */
  function ReadFrom(d: seq<WireValue>, version: Version): Option<(FieldCapabilities, seq<WireValue>)>
  {
    if |d| < 5 || !d[0].WString? || !d[1].WString? || !d[2].WBool? || !d[3].WBool? || !d[4].WBool? then None
    else
      var d1 := d[5..];
      if version >= V_8_0_0 && (|d1| < 2 || !d1[0].WBool? || !d1[1].WOptionalEnum?) then None
      else
        var isDimension := if version >= V_8_0_0 then d1[0].b else false;
        var metricType := if version >= V_8_0_0 then d1[1].m else None;
        var d2 := if version >= V_8_0_0 then d1[2..] else d1;
        if |d2| < 3 || !d2[0].WOptionalStringArray? || !d2[1].WOptionalStringArray? || !d2[2].WOptionalStringArray? then None
        else
          var d3 := d2[3..];
          if version >= V_8_0_0 && (|d3| < 2 || !d3[0].WOptionalStringArray? || !d3[1].WOptionalStringArray?) then None
          else
            var nonDimension := if version >= V_8_0_0 then d3[0].a else None;
            var metricConflicts := if version >= V_8_0_0 then d3[1].a else None;
            var d4 := if version >= V_8_0_0 then d3[2..] else d3;
            if |d4| < 1 || !d4[0].WMeta? then None
            else
              Some((FieldCapabilities(d[0].s, d[1].s, d[2].b, d[3].b, d[4].b, isDimension, metricType,
                                      d2[0].a, d2[1].a, d2[2].a, nonDimension, metricConflicts, d4[0].meta),
                    d4[1..]))
  }

  /** What survives a trip over the wire at `version`: everything from 8.0.0
      on; before it, the time-series fields fall back to false and null. */
  function AtVersion(fc: FieldCapabilities, version: Version): FieldCapabilities
  {
    if version >= V_8_0_0 then fc
    else fc.(isDimension := false, metricType := None, nonDimensionIndices := None, metricConflictsIndices := None)
  }

  /** Reading back what was written at the same version gives the
      capabilities as that version carries them, and leaves the rest of the
      stream unread. */
  lemma RoundTrip(fc: FieldCapabilities, version: Version, rest: seq<WireValue>)
    ensures ReadFrom(WriteTo(fc, version) + rest, version) == Some((AtVersion(fc, version), rest))
  {
    var d := WriteTo(fc, version) + rest;
    if version >= V_8_0_0 {
      assert d[5..][2..][3..][2..] == [WMeta(fc.meta)] + rest;
    } else {
      assert d[5..][3..] == [WMeta(fc.meta)] + rest;
    }
  }

  /** Capabilities without time-series data lose nothing on an older wire. */
  lemma NonTimeSeriesSurvivesOldWire(fc: FieldCapabilities, version: Version, rest: seq<WireValue>)
    requires !fc.isDimension && fc.metricType.None?
    requires fc.nonDimensionIndices.None? && fc.metricConflictsIndices.None?
    ensures ReadFrom(WriteTo(fc, version) + rest, version) == Some((fc, rest))
  {
    RoundTrip(fc, version, rest);
  }
}
