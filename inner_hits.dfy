/** The nested-hit side of the SQL search-hit row set: the search hits of one
    page, the inner_hits sections each of them carries, the comparator that
    orders nested hits by offset, and the resolver that collects, deduplicates
    and sorts the inner hits of one hit for one nested path. */
module InnerHits {
  import opened Wrappers

  /** One nested match. `offset` is the offset of its nested identity (its
      position inside the parent's source); `source` stands for the rest of
      the hit, so that two inner hits with the same offset may differ. */
  datatype InnerHit = InnerHit(offset: int, source: string)

  /** One named inner_hits section of a hit, for example key "address_1". */
  datatype Section = Section(key: string, hits: seq<InnerHit>)

  /** A top-level search hit, reduced to its inner_hits sections in the
      order the hit's map yields them. */
  datatype Hit = Hit(id: string, innerHits: seq<Section>)

  /** Integer.compareTo: the sign of a - b. */
  function CompareInt(a: int, b: int): (r: int)
    ensures r < 0 <==> a < b
    ensures r == 0 <==> a == b
    ensures r > 0 <==> a > b
    ensures -1 <= r <= 1
  {
    if a < b then -1 else if a == b then 0 else 1
  }

  /** NestedHitOffsetComparator.compare: a null hit sorts before every hit,
      two hits compare by offset. */
  function CompareNested(a: Option<InnerHit>, b: Option<InnerHit>): (r: int)
    ensures -1 <= r <= 1
    ensures a.None? && b.None? ==> r == 0
    ensures a.None? && b.Some? ==> r < 0
    ensures a.Some? && b.None? ==> r > 0
    ensures a.Some? && b.Some? ==> (r <= 0 <==> a.value.offset <= b.value.offset)
    ensures a.Some? && b.Some? ==> (r == 0 <==> a.value.offset == b.value.offset)
  {
    if a.None? && b.None? then 0
    else if a.None? then -1
    else if b.None? then 1
    else CompareInt(a.value.offset, b.value.offset)
  }

  /** The comparator is a consistent total preorder, as Comparator demands:
      swapping the arguments flips the sign, and it is transitive. */
  lemma CompareNestedIsTotalPreorder(a: Option<InnerHit>, b: Option<InnerHit>, c: Option<InnerHit>)
    ensures CompareNested(a, b) == -CompareNested(b, a)
    ensures CompareNested(a, b) <= 0 && CompareNested(b, c) <= 0 ==> CompareNested(a, c) <= 0
    ensures CompareNested(a, b) == 0 ==> CompareNested(a, c) == CompareNested(b, c)
  {
  }

  /** String.lastIndexOf(c): the last position holding c, or -1. */
  function LastIndexOf(s: string, c: char): (r: int)
    ensures -1 <= r < |s|
    ensures r >= 0 ==> s[r] == c && forall k :: r < k < |s| ==> s[k] != c
    ensures r == -1 ==> forall k :: 0 <= k < |s| ==> s[k] != c
  {
    if |s| == 0 then -1
    else if s[|s| - 1] == c then |s| - 1
    else LastIndexOf(s[..|s| - 1], c)
  }

  /** A section belongs to `path` when its key, cut at the last '_', is the
      path; a key without '_' belongs to no path. */
  predicate SectionMatches(key: string, path: string)
  {
    var endOfPath := LastIndexOf(key, '_');
    endOfPath >= 0 && key[..endOfPath] == path
  }

  /** Every inner hit of the sections that belong to `path`, in section order. */
  function Candidates(sections: seq<Section>, path: string): seq<InnerHit>
  {
    if sections == [] then []
    else
      var last := sections[|sections| - 1];
      Candidates(sections[..|sections| - 1], path) + (if SectionMatches(last.key, path) then last.hits else [])
  }

  function Offsets(s: seq<InnerHit>): set<int>
  {
    set h | h in s :: h.offset
  }

  function OffsetSeq(s: seq<InnerHit>): (r: seq<int>)
    ensures |r| == |s| && forall k :: 0 <= k < |s| ==> r[k] == s[k].offset
  {
    seq(|s|, k requires 0 <= k < |s| => s[k].offset)
  }

  predicate Ascending(s: seq<InnerHit>)
  {
    forall i, j :: 0 <= i < j < |s| ==> s[i].offset < s[j].offset
  }

  predicate SortedByOffset(s: seq<InnerHit>)
  {
    forall i, j :: 0 <= i < j < |s| ==> CompareNested(Some(s[i]), Some(s[j])) <= 0
  }

  predicate DistinctOffsets(s: seq<InnerHit>)
  {
    forall i, j :: 0 <= i < j < |s| ==> s[i].offset != s[j].offset
  }

  /** `x` occurs in `s` with no later element of `s` sharing its offset. */
  predicate LastWithOffset(x: InnerHit, s: seq<InnerHit>)
  {
    exists i :: 0 <= i < |s| && s[i] == x && forall j :: i < j < |s| ==> s[j].offset != x.offset
  }

  /** Each offset has one last element. */
  lemma LastWithOffsetUnique(x: InnerHit, y: InnerHit, s: seq<InnerHit>)
    requires LastWithOffset(x, s) && LastWithOffset(y, s) && x.offset == y.offset
    ensures x == y
  {
    var i :| 0 <= i < |s| && s[i] == x && forall j :: i < j < |s| ==> s[j].offset != x.offset;
    var k :| 0 <= k < |s| && s[k] == y && forall j :: k < j < |s| ==> s[j].offset != y.offset;
    assert !(i < k) && !(k < i);
  }

  /** What the resolver promises for candidates `cands`: strictly ascending
      offsets, every candidate offset represented, and for each offset the
      last candidate with it (a later put replaces an earlier one). */
  predicate Resolved(r: seq<InnerHit>, cands: seq<InnerHit>)
  {
    && Ascending(r)
    && (forall x :: x in r ==> LastWithOffset(x, cands))
    && Offsets(r) == Offsets(cands)
  }

  /** The map built by the resolver holds, for every offset seen so far, the
      last inner hit seen with that offset. */
  ghost predicate Keyed(lhm: map<int, InnerHit>, seen: seq<InnerHit>)
  {
    && lhm.Keys == Offsets(seen)
    && forall k :: k in lhm ==> lhm[k].offset == k && LastWithOffset(lhm[k], seen)
  }

  lemma KeyedPut(lhm: map<int, InnerHit>, seen: seq<InnerHit>, x: InnerHit)
    requires Keyed(lhm, seen)
    ensures Keyed(lhm[x.offset := x], seen + [x])
  {
    var all := seen + [x];
    assert Offsets(all) == Offsets(seen) + {x.offset};
    var next := lhm[x.offset := x];
    forall k | k in next ensures LastWithOffset(next[k], all) {
      if k == x.offset {
        assert all[|seen|] == x;
      } else {
        var i :| 0 <= i < |seen| && seen[i] == lhm[k] && forall j :: i < j < |seen| ==> seen[j].offset != k;
        assert all[i] == lhm[k];
      }
    }
  }

  lemma CandidatesStep(sections: seq<Section>, i: nat, path: string)
    requires i < |sections|
    ensures Candidates(sections[..i + 1], path)
         == Candidates(sections[..i], path)
          + (if SectionMatches(sections[i].key, path) then sections[i].hits else [])
  {
    assert sections[..i + 1][..i] == sections[..i];
  }

  lemma CountAtMostOne(s: seq<InnerHit>, x: InnerHit)
    requires DistinctOffsets(s)
    ensures multiset(s)[x] <= 1
  {
    if s != [] {
      assert s == [s[0]] + s[1..];
      CountAtMostOne(s[1..], x);
      if s[0] == x {
        assert x !in s[1..];
      }
    }
  }

  /** Rearranging a sequence cannot make two of its offsets equal. */
  lemma {:induction false} DistinctOffsetsPermutation(s: seq<InnerHit>, t: seq<InnerHit>)
    requires multiset(s) == multiset(t) && DistinctOffsets(s)
    ensures DistinctOffsets(t)
  {
    forall i, j | 0 <= i < j < |t| ensures t[i].offset != t[j].offset {
      if t[i].offset == t[j].offset {
        assert t[i] in multiset(s) && t[j] in multiset(s);
        var p :| 0 <= p < |s| && s[p] == t[i];
        var q :| 0 <= q < |s| && s[q] == t[j];
        assert p == q;
        assert t == t[..j] + t[j..];
        assert t[i] in t[..j] && t[j] in t[j..];
        assert multiset(t)[t[i]] == multiset(t[..j])[t[i]] + multiset(t[j..])[t[i]];
        CountAtMostOne(s, t[i]);
        assert false;
      }
    }
  }

  /** The first `n` elements of `a` are in offset order. */
  ghost predicate SortedUpTo(a: array<InnerHit>, n: int)
    reads a
  {
    forall p, q :: 0 <= p < q < n && q < a.Length ==> a[p].offset <= a[q].offset
  }

  /** Exchanges two neighbouring elements. */
  method SwapDown(a: array<InnerHit>, j: int)
    requires 0 < j < a.Length
    modifies a
    ensures a[j - 1] == old(a[j]) && a[j] == old(a[j - 1])
    ensures forall k :: 0 <= k < a.Length && k != j - 1 && k != j ==> a[k] == old(a[k])
    ensures multiset(a[..]) == multiset(old(a[..]))
  {
    a[j - 1], a[j] := a[j], a[j - 1];
  }

  /** One insertion step: `a[i]` moves down past the larger offsets before it. */
  method InsertAt(a: array<InnerHit>, i: int)
    requires 0 <= i < a.Length && SortedUpTo(a, i)
    modifies a
    ensures SortedUpTo(a, i + 1)
    ensures multiset(a[..]) == multiset(old(a[..]))
  {
    var j := i;
    while j > 0 && CompareNested(Some(a[j - 1]), Some(a[j])) > 0
      invariant 0 <= j <= i
      invariant forall p, q :: 0 <= p < q <= i && q != j ==> a[p].offset <= a[q].offset
      invariant forall q :: j < q <= i ==> a[j].offset <= a[q].offset
      invariant multiset(a[..]) == multiset(old(a[..]))
    {
      SwapDown(a, j);
      j := j - 1;
    }
  }

  /** Collections.sort with NestedHitOffsetComparator on the resolver's list,
      done in place by insertion. */
  method SortByOffset(a: array<InnerHit>)
    modifies a
    ensures SortedByOffset(a[..])
    ensures multiset(a[..]) == multiset(old(a[..]))
  {
    var i := 0;
    while i < a.Length
      invariant 0 <= i <= a.Length
      invariant SortedUpTo(a, i)
      invariant multiset(a[..]) == multiset(old(a[..]))
    {
      InsertAt(a, i);
      i := i + 1;
    }
  }

  /** The inner loop of the first half of getAllInnerHits: each inner hit
      of one section put under its offset. */
  method PutAll(lhm: map<int, InnerHit>, ghost seen: seq<InnerHit>, h: seq<InnerHit>) returns (next: map<int, InnerHit>)
    requires Keyed(lhm, seen)
    ensures Keyed(next, seen + h)
  {
    next := lhm;
    var j := 0;
    assert seen + h[..0] == seen;
    while j < |h|
      invariant 0 <= j <= |h|
      invariant Keyed(next, seen + h[..j])
    {
      KeyedPut(next, seen + h[..j], h[j]);
      assert seen + h[..j + 1] == (seen + h[..j]) + [h[j]];
      next := next[h[j].offset := h[j]];
      j := j + 1;
    }
    assert h[..j] == h;
  }

  /** The first half of getAllInnerHits: every inner hit of a section that
      belongs to `path` is put into a map keyed by its offset, so that a later
      inner hit with the same offset replaces an earlier one. */
  method FillByOffset(sections: seq<Section>, path: string) returns (lhm: map<int, InnerHit>)
    ensures Keyed(lhm, Candidates(sections, path))
  {
    lhm := map[];
    var i := 0;
    while i < |sections|
      invariant 0 <= i <= |sections|
      invariant Keyed(lhm, Candidates(sections[..i], path))
    {
      var entry := sections[i];
      var endOfPath := LastIndexOf(entry.key, '_');
      CandidatesStep(sections, i, path);
      ghost var before := Candidates(sections[..i], path);
      if endOfPath >= 0 && entry.key[..endOfPath] == path {
        assert Candidates(sections[..i + 1], path) == before + entry.hits;
        lhm := PutAll(lhm, before, entry.hits);
      } else {
        assert Candidates(sections[..i + 1], path) == before + [];
        assert before + [] == before;
      }
      i := i + 1;
    }
    assert sections[..i] == sections;
  }

  /** new ArrayList<>(lhm.values()): the map's values in some order, each once. */
  method ValuesOf(lhm: map<int, InnerHit>) returns (values: seq<InnerHit>)
    requires forall k :: k in lhm ==> lhm[k].offset == k
    ensures Offsets(values) == lhm.Keys
    ensures forall x :: x in values ==> x.offset in lhm && lhm[x.offset] == x
    ensures DistinctOffsets(values)
  {
    var keys := lhm.Keys;
    values := [];
    while keys != {}
      invariant keys <= lhm.Keys
      invariant Offsets(values) == lhm.Keys - keys
      invariant forall x :: x in values ==> x.offset in lhm && lhm[x.offset] == x
      invariant DistinctOffsets(values)
      decreases keys
    {
      if forall y :: y !in keys {
        assert false;
      }
      var k :| k in keys;
      assert k !in Offsets(values);
      assert Offsets(values + [lhm[k]]) == Offsets(values) + {k};
      values := values + [lhm[k]];
      keys := keys - {k};
    }
  }

  /** getAllInnerHits: gathers the inner hits of every section of `hit` that
      belongs to `path`, keeps one per offset, and returns them sorted by
      offset. A null hit gives null. */
  method GetAllInnerHits(hit: Option<Hit>, path: string) returns (r: Option<seq<InnerHit>>)
    ensures hit.None? <==> r.None?
    ensures hit.Some? ==> Resolved(r.value, Candidates(hit.value.innerHits, path))
  {
    if hit.None? {
      return None;
    }
    var lhm := FillByOffset(hit.value.innerHits, path);
    var values := ValuesOf(lhm);
    var a := new InnerHit[|values|](k requires 0 <= k < |values| => values[k]);
    assert a[..] == values;
    SortByOffset(a);
    SortedValuesResolved(values, a[..], Candidates(hit.value.innerHits, path));
    r := Some(a[..]);
  }

  /** Sorting the map's values by offset yields the resolved candidates. */
  lemma SortedValuesResolved(values: seq<InnerHit>, sorted: seq<InnerHit>, cands: seq<InnerHit>)
    requires multiset(sorted) == multiset(values) && DistinctOffsets(values) && SortedByOffset(sorted)
    requires Offsets(values) == Offsets(cands) && forall x :: x in values ==> LastWithOffset(x, cands)
    ensures Resolved(sorted, cands)
  {
    DistinctOffsetsPermutation(values, sorted);
    forall x | x in sorted ensures x in values {
      assert x in multiset(sorted);
    }
    forall x | x in values ensures x in sorted {
      assert x in multiset(values);
    }
    assert Offsets(sorted) == Offsets(values);
  }

  lemma OffsetsCons(s: seq<InnerHit>)
    requires s != []
    ensures Offsets(s) == {s[0].offset} + Offsets(s[1..])
  {
    assert s == [s[0]] + s[1..];
  }

  /** The first offset of a strictly ascending sequence is its least one. */
  lemma AscendingHeadIsLeast(s: seq<InnerHit>, x: int)
    requires Ascending(s) && x in Offsets(s)
    ensures s[0].offset <= x
  {
    var h :| h in s && h.offset == x;
    var k :| 0 <= k < |s| && s[k] == h;
  }

  /** A strictly ascending sequence of inner hits has one offset per element. */
  lemma {:induction false} AscendingCardinality(s: seq<InnerHit>)
    requires Ascending(s)
    ensures |Offsets(s)| == |s|
  {
    if s != [] {
      AscendingCardinality(s[1..]);
      OffsetsCons(s);
    }
  }

  /** The resolver's result has as many elements as there are distinct
      candidate offsets. */
  lemma ResolvedLength(r: seq<InnerHit>, cands: seq<InnerHit>)
    requires Resolved(r, cands)
    ensures |r| == |Offsets(cands)|
  {
    AscendingCardinality(r);
  }

  /** Two nonempty strictly ascending sequences with the same offsets start
      with the same offset and continue with the same offsets. */
  lemma AscendingSameHead(s: seq<InnerHit>, t: seq<InnerHit>)
    requires Ascending(s) && Ascending(t) && Offsets(s) == Offsets(t)
    requires s != [] && t != []
    ensures s[0].offset == t[0].offset
    ensures Offsets(s[1..]) == Offsets(t[1..])
  {
    OffsetsCons(s);
    OffsetsCons(t);
    AscendingHeadIsLeast(s, t[0].offset);
    AscendingHeadIsLeast(t, s[0].offset);
    var y, z := Offsets(s[1..]), Offsets(t[1..]);
    assert s[0].offset !in y && t[0].offset !in z;
  }

  /** Two strictly ascending sequences with the same offsets agree offset by
      offset: the resolver's output order is fully determined. */
  lemma {:induction false} AscendingUnique(s: seq<InnerHit>, t: seq<InnerHit>)
    requires Ascending(s) && Ascending(t) && Offsets(s) == Offsets(t)
    ensures |s| == |t| && forall k :: 0 <= k < |s| ==> s[k].offset == t[k].offset
  {
    AscendingCardinality(s);
    AscendingCardinality(t);
    if s != [] {
      AscendingSameHead(s, t);
      AscendingUnique(s[1..], t[1..]);
      forall k | 0 <= k < |s| ensures s[k].offset == t[k].offset {
        if k > 0 {
          assert s[k] == s[1..][k - 1] && t[k] == t[1..][k - 1];
        }
      }
    }
  }

  const ExampleCandidates: seq<InnerHit> :=
    [InnerHit(5, "a"), InnerHit(2, "b"), InnerHit(5, "c"), InnerHit(2, "d"), InnerHit(9, "e")]

  lemma ExampleCandidateOffsets()
    ensures Offsets(ExampleCandidates) == {2, 5, 9}
  {
    var c := ExampleCandidates;
    assert c[0].offset == 5 && c[1].offset == 2 && c[4].offset == 9;
    forall x | x in Offsets(c) ensures x in {2, 5, 9} {
      var h :| h in c && h.offset == x;
      var k :| 0 <= k < |c| && c[k] == h;
    }
  }

  /** The resolver's result is fully determined by the candidates. */
  lemma ResolvedUnique(r: seq<InnerHit>, t: seq<InnerHit>, cands: seq<InnerHit>)
    requires Resolved(r, cands) && Resolved(t, cands)
    ensures r == t
  {
    AscendingUnique(r, t);
    forall k | 0 <= k < |r| ensures r[k] == t[k] {
      assert r[k] in r && t[k] in t;
      LastWithOffsetUnique(r[k], t[k], cands);
    }
  }

  const ExampleResult: seq<InnerHit> := [InnerHit(2, "d"), InnerHit(5, "c"), InnerHit(9, "e")]

  lemma ExampleResultLast()
    ensures forall x :: x in ExampleResult ==> LastWithOffset(x, ExampleCandidates)
  {
    var c, e := ExampleCandidates, ExampleResult;
    assert LastWithOffset(e[0], c) by { assert c[3] == e[0]; }
    assert LastWithOffset(e[1], c) by { assert c[2] == e[1]; }
    assert LastWithOffset(e[2], c) by { assert c[4] == e[2]; }
  }

  lemma ExampleResultResolved()
    ensures Resolved(ExampleResult, ExampleCandidates)
  {
    var e := ExampleResult;
    ExampleCandidateOffsets();
    ExampleResultLast();
    assert Offsets(e) == {2, 5, 9} by {
      assert e[0].offset == 2 && e[1].offset == 5 && e[2].offset == 9;
    }
  }

  /** Offsets 5, 2, 5, 2, 9 resolve to offsets 2, 5, 9, each time the last
      candidate with that offset. */
  lemma ResolvedExample(r: seq<InnerHit>)
    requires Resolved(r, ExampleCandidates)
    ensures r == ExampleResult
  {
    ExampleResultResolved();
    ResolvedUnique(r, ExampleResult, ExampleCandidates);
  }
}
