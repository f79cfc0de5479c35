/** The SQL search-hit row set: one page of search hits flattened into rows,
    one row per hit, or one row per deduplicated inner hit when a column reads
    from a nested path. The cursor is an odometer over the hit index and the
    inner-hit index; construction also decides the page size and whether the
    scroll goes on. */
module RowSet {
  import opened Wrappers
  import opened InnerHits

  /** A column extractor: it reads the top-level hit when `hitName` is null,
      otherwise an inner hit of the nested path `hitName`. */
  datatype Extractor = Extractor(field: string, hitName: Option<string>)

  /** The parts of a search response the row set reads. */
  datatype SearchResponse = SearchResponse(hits: seq<Hit>, totalHits: Option<int>, scrollId: Option<string>)

  datatype RowSetError =
    | MultiNestedNotSupported(paths: seq<string>)  // SqlIllegalArgumentException
    | IndexOutOfBounds                             // an array index outside the array
    | NullReference                                // a map lookup that found nothing

  /** What extractValue hands to the extractor: a hit or one of its inner hits. */
  datatype Extracted = TopLevel(hit: Hit) | Nested(inner: InnerHit)

  // ---------------------------------------------------------------------
  // Construction: nested path, page size, scroll continuation
  // ---------------------------------------------------------------------

  /** The distinct nested paths named by the extractors. */
  function HitNames(exts: seq<Extractor>): set<string>
  {
    set e | e in exts && e.hitName.Some? :: e.hitName.value
  }

  /** The first nested path named by an extractor, if any. */
  function FirstHitName(exts: seq<Extractor>): (r: Option<string>)
    ensures r.None? <==> HitNames(exts) == {}
    ensures r.Some? ==> r.value in HitNames(exts)
  {
    if exts == [] then None
    else
      var first := FirstHitName(exts[..|exts| - 1]);
      assert exts == exts[..|exts| - 1] + [exts[|exts| - 1]];
      HitNamesAppend(exts[..|exts| - 1], exts[|exts| - 1]);
      if first.Some? then first else exts[|exts| - 1].hitName
  }

  lemma HitNamesAppend(exts: seq<Extractor>, e: Extractor)
    ensures HitNames(exts + [e]) == HitNames(exts) + (if e.hitName.Some? then {e.hitName.value} else {})
  {
    assert forall x :: x in exts + [e] <==> x in exts || x == e;
  }

  /** A set holding two different elements has more than one. */
  lemma TwoElements<T>(s: set<T>, a: T, b: T)
    requires a in s && b in s && a != b
    ensures |s| > 1
  {
    var rest := s - {a};
    assert s == rest + {a} && a !in rest;
    assert b in rest;
    assert |rest| > 0;
  }

  predicate NoDuplicates(s: seq<string>)
  {
    forall i, j :: 0 <= i < j < |s| ==> s[i] != s[j]
  }

  /** What the constructor's first loop knows after the extractors `exts`:
      the distinct paths in order of first mention, and the first of them. */
  ghost predicate Collected(exts: seq<Extractor>, innerHits: seq<string>, innerHit: Option<string>)
  {
    && (set p | p in innerHits) == HitNames(exts)
    && NoDuplicates(innerHits)
    && innerHit == FirstHitName(exts)
    && (innerHits == [] <==> innerHit.None?)
    && (innerHits != [] ==> innerHit == Some(innerHits[0]))
  }

  lemma CollectStep(exts: seq<Extractor>, i: nat, innerHits: seq<string>, innerHit: Option<string>)
    requires i < |exts| && Collected(exts[..i], innerHits, innerHit)
    ensures var name := exts[i].hitName;
            Collected(exts[..i + 1],
                      if name.Some? && name.value !in innerHits then innerHits + [name.value] else innerHits,
                      if innerHit.None? then name else innerHit)
  {
    assert exts[..i + 1] == exts[..i] + [exts[i]];
    assert exts[..i + 1][..i] == exts[..i];
    HitNamesAppend(exts[..i], exts[i]);
    if exts[i].hitName.Some? {
      AddPath(innerHits, exts[i].hitName.value);
    }
  }

  /** Appending a path unless it is already listed. */
  lemma AddPath(paths: seq<string>, x: string)
    requires NoDuplicates(paths)
    ensures var next := if x in paths then paths else paths + [x];
            && (set p | p in next) == (set p | p in paths) + {x}
            && NoDuplicates(next)
            && next != []
            && (paths != [] ==> next[0] == paths[0])
  {
    if x !in paths {
      assert forall p :: p in paths + [x] <==> p in paths || p == x;
    }
  }

  /** The first loop of the constructor: the distinct paths, in order of
      first mention, and the first of them. */
  method CollectInnerHitPaths(exts: seq<Extractor>) returns (innerHits: seq<string>, innerHit: Option<string>)
    ensures (set p | p in innerHits) == HitNames(exts)
    ensures NoDuplicates(innerHits)
    ensures innerHit == FirstHitName(exts)
    ensures innerHits == [] <==> innerHit.None?
    ensures innerHits != [] ==> innerHit == Some(innerHits[0])
  {
    innerHits := [];
    innerHit := None;
    var i := 0;
    while i < |exts|
      invariant 0 <= i <= |exts|
      invariant Collected(exts[..i], innerHits, innerHit)
    {
      var ex := exts[i];
      CollectStep(exts, i, innerHits, innerHit);
      if ex.hitName.Some? {
        if ex.hitName.value !in innerHits {
          innerHits := innerHits + [ex.hitName.value];
        }
        if innerHit.None? {
          innerHit := ex.hitName;
        }
      }
      i := i + 1;
    }
    assert exts[..i] == exts;
  }

  /** The number of elements of `s`, summed. */
  function Sum(s: seq<nat>): nat
  {
    if s == [] then 0 else Sum(s[..|s| - 1]) + s[|s| - 1]
  }

  lemma {:induction false} SumHead(s: seq<nat>)
    requires s != []
    ensures Sum(s) == s[0] + Sum(s[1..])
  {
    if |s| > 1 {
      SumHead(s[..|s| - 1]);
      assert s[..|s| - 1][1..] == s[1..][..|s| - 2];
    }
  }

  lemma SumAppend(s: seq<nat>, x: nat)
    ensures Sum(s + [x]) == Sum(s) + x
  {
    assert (s + [x])[..|s|] == s;
  }

  /** The child count of every hit in the inner-hit table. */
  function Counts(flat: seq<seq<InnerHit>>): (c: seq<nat>)
    ensures |c| == |flat| && forall i :: 0 <= i < |flat| ==> c[i] == |flat[i]|
  {
    seq(|flat|, i requires 0 <= i < |flat| => |flat[i]|)
  }

  /** The number of distinct inner-hit offsets of each hit for `path`. */
  function DistinctInnerHitCounts(hits: seq<Hit>, path: string): (c: seq<nat>)
    ensures |c| == |hits|
  {
    seq(|hits|, i requires 0 <= i < |hits| => |Offsets(Candidates(hits[i].innerHits, path))|)
  }

  /** `sz` before the limit: one row per hit without a nested path, else one
      row per distinct inner hit. */
  function RawRowCount(hits: seq<Hit>, path: Option<string>): nat
  {
    if path.None? then |hits| else Sum(DistinctInnerHitCounts(hits, path.value))
  }

  /** The page size: `sz` when the limit is negative, else min(sz, limit). */
  function PageSize(sz: nat, limit: int): (size: nat)
    ensures size <= sz
    ensures limit < 0 ==> size == sz
    ensures limit >= 0 ==> size <= limit && (size == sz || size == limit)
  {
    if limit < 0 then sz else if sz < limit then sz else limit
  }

  /** The scroll continuation: the scroll id with the remaining limit, or
      none when there is no scroll id, the page is empty, the limit is used
      up, or the hits seen are all the hits there are. */
  function NextScrollData(scrollId: Option<string>, totalHits: Option<int>, hitCount: nat, size: nat, limit: int): Option<(string, int)>
  {
    if scrollId.None? then None
    else
      var remainingLimit := if limit < 0 then limit else limit - size;
      if size == 0 || remainingLimit == 0 || (totalHits.Some? && totalHits.value == hitCount) then None
      else Some((scrollId.value, remainingLimit))
  }

  /** The four ways the scroll ends, and what a continuation carries. */
  lemma NextScrollDataCases(scrollId: Option<string>, totalHits: Option<int>, hitCount: nat, sz: nat, limit: int)
    ensures var size := PageSize(sz, limit);
            var r := NextScrollData(scrollId, totalHits, hitCount, size, limit);
            && (r.None? <==>
                 || scrollId.None?
                 || size == 0
                 || (limit >= 0 && limit - size == 0)
                 || (totalHits.Some? && totalHits.value == hitCount))
            && (r.Some? ==> r.value.0 == scrollId.value)
            && (r.Some? && limit < 0 ==> r.value.1 == limit)
            && (r.Some? && limit >= 0 ==> r.value.1 == limit - size > 0)
  {
  }

  /** A non-negative limit that the page fills ends the scroll: the remaining
      limit would be zero. */
  lemma FilledLimitEndsScroll(scrollId: Option<string>, totalHits: Option<int>, hitCount: nat, sz: nat, limit: int)
    requires 0 <= limit <= sz
    ensures NextScrollData(scrollId, totalHits, hitCount, PageSize(sz, limit), limit).None?
  {
  }

  // ---------------------------------------------------------------------
  // Iteration: the odometer
  // ---------------------------------------------------------------------

  /** The level indexes doNext's carry loop leaves behind, and whether the
      loop ran without touching an array outside its bounds. */
  datatype Advance = Advance(indices: seq<int>, ok: bool)

  /** One pass of doNext's carry loop over `idx`, after the row check: the
      deepest index is bumped, then the levels are checked from the top. A
      carry resets a level to 0 and bumps its parent; the loop then resumes
      at level 1 (lvl is set to 0 and then incremented), where it compares
      the fresh 0 against the number of hits rather than the new parent's
      child count. So a carry always lands on child 0 of the next hit, even
      when that hit has no inner hit. A carry out of level 0 writes the 0
      and then fails on index -1. */
  function Odometer(hitCount: nat, childCounts: seq<nat>, idx: seq<int>): Advance
    requires |idx| == 1 || |idx| == 2
    requires |idx| == 2 ==> |childCounts| == hitCount
  {
    if |idx| == 1 then
      var i := idx[0] + 1;
      if i == hitCount then Advance([0], false)
      else Advance([i], 0 <= i < hitCount)
    else
      var i, j := idx[0], idx[1] + 1;
      if i == hitCount then Advance([0, j], false)
      else if !(0 <= i < hitCount) then Advance([i, j], false)
      else if j == childCounts[i] then Advance([i + 1, 0], true)
      else Advance([i, j], 0 <= j < childCounts[i])
  }

  /** The valid (hit, child) positions of hits `from` onwards, in
      lexicographic order. */
  function Enumerate(counts: seq<nat>, from: nat): (r: seq<seq<int>>)
    ensures |r| == if from < |counts| then Sum(counts[from..]) else 0
    ensures forall k :: 0 <= k < |r| ==> |r[k]| == 2
    decreases |counts| - from
  {
    if from >= |counts| then []
    else
      SumHead(counts[from..]);
      assert counts[from..][1..] == counts[from + 1..];
      seq(counts[from], j => [from, j]) + Enumerate(counts, from + 1)
  }

  predicate LexLess(p: seq<int>, q: seq<int>)
  {
    |p| == 2 && |q| == 2 && (p[0] < q[0] || (p[0] == q[0] && p[1] < q[1]))
  }

  /** Every enumerated position is a valid (hit, child) pair of a hit from
      `from` on, and the positions strictly increase in lexicographic order. */
  lemma {:induction false} EnumerateValid(counts: seq<nat>, from: nat, k: nat)
    requires k < |Enumerate(counts, from)|
    ensures var p := Enumerate(counts, from)[k];
            |p| == 2 && from <= p[0] < |counts| && 0 <= p[1] < counts[p[0]]
    decreases |counts| - from
  {
    if k >= counts[from] {
      EnumerateValid(counts, from + 1, k - counts[from]);
    }
  }

  lemma {:induction false} EnumerateOrdered(counts: seq<nat>, from: nat, k: nat, l: nat)
    requires k < l < |Enumerate(counts, from)|
    ensures LexLess(Enumerate(counts, from)[k], Enumerate(counts, from)[l])
    decreases |counts| - from
  {
    EnumerateValid(counts, from, k);
    EnumerateValid(counts, from, l);
    if k >= counts[from] {
      EnumerateOrdered(counts, from + 1, k - counts[from], l - counts[from]);
    } else if l >= counts[from] {
      EnumerateValid(counts, from + 1, l - counts[from]);
    }
  }

  /** Every valid (hit, child) pair is enumerated. */
  lemma {:induction false} EnumerateComplete(counts: seq<nat>, from: nat, i: nat, j: nat)
    requires from <= i < |counts| && j < counts[i]
    ensures [i as int, j as int] in Enumerate(counts, from)
    decreases |counts| - from
  {
    var e := Enumerate(counts, from);
    if i == from {
      assert e[j] == [i, j];
    } else {
      EnumerateComplete(counts, from + 1, i, j);
      var rest := Enumerate(counts, from + 1);
      var k :| 0 <= k < |rest| && rest[k] == [i, j];
      assert e[counts[from] + k] == rest[k];
    }
  }

  /** From an enumerated position that has a successor, and with every hit
      having at least one inner hit, one odometer step moves exactly to that
      successor. */
  lemma {:induction false} EnumerateStep(counts: seq<nat>, from: nat, k: nat)
    requires forall i :: from <= i < |counts| ==> counts[i] > 0
    requires k + 1 < |Enumerate(counts, from)|
    ensures var e := Enumerate(counts, from);
            Odometer(|counts|, counts, e[k]) == Advance(e[k + 1], true)
    decreases |counts| - from
  {
    EnumerateValid(counts, from, k);
    var e := Enumerate(counts, from);
    var rest := Enumerate(counts, from + 1);
    if k + 1 < counts[from] {
      assert e[k] == [from, k] && e[k + 1] == [from, k + 1];
    } else if k + 1 == counts[from] {
      assert e[k] == [from, k];
      assert e[k + 1] == rest[0];
      assert counts[from + 1] > 0;
      assert rest[0] == [from + 1, 0];
    } else {
      EnumerateStep(counts, from + 1, k - counts[from]);
      assert e[k] == rest[k - counts[from]] && e[k + 1] == rest[k + 1 - counts[from]];
    }
  }

  /** With every hit having an inner hit, the first position is (0, 0). */
  lemma EnumerateFirst(counts: seq<nat>)
    requires forall i :: 0 <= i < |counts| ==> counts[i] > 0
    requires |Enumerate(counts, 0)| > 0
    ensures Enumerate(counts, 0)[0] == [0, 0]
  {
  }

  /** The odometer does not skip a hit without inner hits: from the only
      child of hit 0 the carry lands on hit 1, which has none, although the
      enumeration of valid positions goes on to hit 2. With child counts 1,
      0 and 1 the page holds two rows, so `doNext` stops at row 1, that is at
      position (1, 0): a nested extractor reads past hit 1's inner hits
      there, and hit 2's inner hit is never read. */
  lemma EmptyHitNotSkipped(hits: seq<Hit>, flat: seq<seq<InnerHit>>, path: string, e: Extractor)
    requires |hits| == 3 && Counts(flat) == [1, 0, 1] && e.hitName.Some?
    ensures Enumerate([1, 0, 1], 0) == [[0, 0], [2, 0]]
    ensures Odometer(3, [1, 0, 1], [0, 0]) == Advance([1, 0], true)
    ensures Odometer(3, [1, 0, 1], [1, 0]) == Advance([1, 1], false)
    ensures Sum(Counts(flat)) == 2
    ensures ValueAt(hits, flat, Some(path), [1, 0], e) == Failure(IndexOutOfBounds)
  {
    assert Enumerate([1, 0, 1], 2) == [[2, 0]];
    assert Enumerate([1, 0, 1], 1) == [[2, 0]];
    assert |flat[1]| == Counts(flat)[1] == 0;
  }

  /** What extractValue reads at positions `idx`: the hit at level 0 for a
      top-level extractor, that hit's inner hit at level 1 for a nested one. */
  function ValueAt(hits: seq<Hit>, flat: seq<seq<InnerHit>>, innerHit: Option<string>, idx: seq<int>, e: Extractor): Result<Extracted, RowSetError>
    requires |idx| == (if innerHit.Some? then 2 else 1)
    requires innerHit.Some? ==> |flat| == |hits|
  {
    if !(0 <= idx[0] < |hits|) then Failure(IndexOutOfBounds)
    else if e.hitName.None? then Success(TopLevel(hits[idx[0]]))
    else if innerHit.None? then Failure(NullReference)
    else if !(0 <= idx[1] < |flat[idx[0]]|) then Failure(IndexOutOfBounds)
    else Success(Nested(flat[idx[0]][idx[1]]))
  }

  /** At every enumerated position both kinds of extractor find their value. */
  lemma ValueAtEnumerated(hits: seq<Hit>, flat: seq<seq<InnerHit>>, path: string, k: nat, e: Extractor)
    requires |flat| == |hits|
    requires k < |Enumerate(Counts(flat), 0)|
    ensures var p := Enumerate(Counts(flat), 0)[k];
            && 0 <= p[0] < |hits| && 0 <= p[1] < |flat[p[0]]|
            && ValueAt(hits, flat, Some(path), p, e)
              == if e.hitName.None? then Success(TopLevel(hits[p[0]])) else Success(Nested(flat[p[0]][p[1]]))
  {
    EnumerateValid(Counts(flat), 0, k);
  }

  /** The first `|flat|` hits have their inner hits resolved in `flat`. */
  ghost predicate ResolvedPrefix(flat: seq<seq<InnerHit>>, hits: seq<Hit>, path: string)
  {
    |flat| <= |hits| && forall k :: 0 <= k < |flat| ==> Resolved(flat[k], Candidates(hits[k].innerHits, path))
  }

  lemma ResolvedPrefixAppend(flat: seq<seq<InnerHit>>, hits: seq<Hit>, path: string, next: seq<InnerHit>)
    requires ResolvedPrefix(flat, hits, path) && |flat| < |hits|
    requires Resolved(next, Candidates(hits[|flat|].innerHits, path))
    ensures ResolvedPrefix(flat + [next], hits, path)
    ensures Sum(Counts(flat + [next])) == Sum(Counts(flat)) + |next|
  {
    SumAppend(Counts(flat), |next|);
    assert Counts(flat + [next]) == Counts(flat) + [|next|];
  }

  lemma ResolvedCounts(flat: seq<seq<InnerHit>>, hits: seq<Hit>, path: string)
    requires ResolvedPrefix(flat, hits, path) && |flat| == |hits|
    ensures Counts(flat) == DistinctInnerHitCounts(hits, path)
  {
    forall k | 0 <= k < |hits| ensures Counts(flat)[k] == DistinctInnerHitCounts(hits, path)[k] {
      ResolvedLength(flat[k], Candidates(hits[k].innerHits, path));
    }
  }

  /** The constructor's loop over the hits for the one nested path: each
      hit's inner hits resolved, and their total count. */
  method ResolveAll(hits: seq<Hit>, path: string) returns (flat: seq<seq<InnerHit>>, sz: nat)
    ensures |flat| == |hits|
    ensures forall k :: 0 <= k < |hits| ==> Resolved(flat[k], Candidates(hits[k].innerHits, path))
    ensures sz == Sum(DistinctInnerHitCounts(hits, path)) == Sum(Counts(flat))
  {
    flat := [];
    sz := 0;
    while |flat| < |hits|
      invariant ResolvedPrefix(flat, hits, path)
      invariant sz == Sum(Counts(flat))
      decreases |hits| - |flat|
    {
      var sh := GetAllInnerHits(Some(hits[|flat|]), path);
      ResolvedPrefixAppend(flat, hits, path, sh.value);
      sz := sz + |sh.value|;
      flat := flat + [sh.value];
    }
    ResolvedCounts(flat, hits, path);
  }

  // ---------------------------------------------------------------------
  // The row set
  // ---------------------------------------------------------------------

  class SearchHitRowSet {
    const hits: seq<Hit>
    /** The deduplicated, sorted inner hits of each hit, by hit position;
        empty when no extractor is nested. */
    const flatInnerHits: seq<seq<InnerHit>>
    const innerHit: Option<string>
    const size: nat
    const indexPerLevel: array<int>
    const nextScrollData: Option<(string, int)>
    var row: int

    function ChildCounts(): seq<nat>
    {
      Counts(flatInnerHits)
    }

    /** The number of rows before the limit. */
    function RawSize(): nat
    {
      if innerHit.Some? then Sum(ChildCounts()) else |hits|
    }

    predicate EveryHitNested()
    {
      forall i :: 0 <= i < |flatInnerHits| ==> |flatInnerHits[i]| > 0
    }

    ghost predicate Valid()
      reads this, indexPerLevel
    {
      && indexPerLevel.Length == (if innerHit.Some? then 2 else 1)
      && (if innerHit.Some? then |flatInnerHits| == |hits| else flatInnerHits == [])
      && size <= RawSize()
      && (nextScrollData.Some? ==> size > 0 && nextScrollData.value.1 != 0)
      && 0 <= row && (row < size || row == 0)
      && (forall l :: 0 <= l < indexPerLevel.Length ==> indexPerLevel[l] >= 0)
      && (innerHit.None? ==> indexPerLevel[0] == row)
      && (innerHit.Some? && EveryHitNested() && row < size ==>
            indexPerLevel[..] == Enumerate(ChildCounts(), 0)[row])
    }

    constructor Init(hits: seq<Hit>, flatInnerHits: seq<seq<InnerHit>>, innerHit: Option<string>,
                     size: nat, nextScrollData: Option<(string, int)>)
      requires if innerHit.Some? then |flatInnerHits| == |hits| else flatInnerHits == []
      requires size <= (if innerHit.Some? then Sum(Counts(flatInnerHits)) else |hits|)
      requires nextScrollData.Some? ==> size > 0 && nextScrollData.value.1 != 0
      ensures Valid() && fresh(indexPerLevel)
      ensures this.hits == hits && this.flatInnerHits == flatInnerHits && this.innerHit == innerHit
      ensures this.size == size && this.nextScrollData == nextScrollData
      ensures row == 0 && forall l :: 0 <= l < indexPerLevel.Length ==> indexPerLevel[l] == 0
    {
      this.hits := hits;
      this.flatInnerHits := flatInnerHits;
      this.innerHit := innerHit;
      this.size := size;
      this.nextScrollData := nextScrollData;
      var maxDepth := if innerHit.Some? then 1 else 0;
      this.indexPerLevel := new int[maxDepth + 1](_ => 0);
      this.row := 0;
      new;
      if innerHit.Some? && EveryHitNested() && 0 < size {
        EnumerateFirst(Counts(flatInnerHits));
        assert indexPerLevel[..] == [0, 0];
      }
    }

    /** The constructor: rejects more than one nested path, resolves the
        inner hits of every hit for the nested path, and computes the page
        size and the scroll continuation. */
    static method Create(exts: seq<Extractor>, limit: int, response: SearchResponse) returns (r: Result<SearchHitRowSet, RowSetError>)
      ensures r.Failure? <==> |HitNames(exts)| > 1
      ensures r.Failure? ==> r.error.MultiNestedNotSupported? && (set p | p in r.error.paths) == HitNames(exts)
      ensures r.Success? ==>
        var rs := r.value;
        && fresh(rs) && fresh(rs.indexPerLevel) && rs.Valid()
        && rs.hits == response.hits
        && rs.innerHit == FirstHitName(exts)
        && (rs.innerHit.Some? ==> forall i :: 0 <= i < |rs.hits| ==>
              Resolved(rs.flatInnerHits[i], Candidates(rs.hits[i].innerHits, rs.innerHit.value)))
        && rs.RawSize() == RawRowCount(response.hits, rs.innerHit)
        && rs.size == PageSize(RawRowCount(response.hits, rs.innerHit), limit)
        && rs.nextScrollData == NextScrollData(response.scrollId, response.totalHits, |response.hits|, rs.size, limit)
        && rs.row == 0
        && forall l :: 0 <= l < rs.indexPerLevel.Length ==> rs.indexPerLevel[l] == 0
    {
      var innerHits, innerHit := CollectInnerHitPaths(exts);
      var hits := response.hits;
      var sz := |hits|;
      var flat: seq<seq<InnerHit>> := [];
      if innerHits != [] {
        if |innerHits| > 1 {
          assert innerHits[0] in HitNames(exts) && innerHits[1] in HitNames(exts);
          TwoElements(HitNames(exts), innerHits[0], innerHits[1]);
          return Failure(MultiNestedNotSupported(innerHits));
        }
        assert HitNames(exts) == {innerHits[0]};
        var path := innerHits[0];
        flat, sz := ResolveAll(hits, path);
      } else {
        assert |HitNames(exts)| == 0;
      }
      var size := PageSize(sz, limit);
      var next := NextScrollData(response.scrollId, response.totalHits, |hits|, size, limit);
      var rs := new SearchHitRowSet.Init(hits, flat, innerHit, size, next);
      r := Success(rs);
    }

    /** isLimitReached: no continuation. When there is one, the page was not
        empty and the remaining limit is not zero. */
    predicate IsLimitReached()
      reads this, indexPerLevel
      requires Valid()
      ensures !IsLimitReached() ==> nextScrollData.Some? && size > 0 && nextScrollData.value.1 != 0
    {
      nextScrollData.None?
    }

    /** doHasCurrent: there is a current row while row < size, and then the
        level indexes name a hit (and, with every hit nested, a child of it). */
    predicate DoHasCurrent()
      reads this, indexPerLevel
      requires Valid()
      ensures DoHasCurrent() <==> row < size
      ensures DoHasCurrent() && innerHit.None? ==> indexPerLevel[0] < |hits|
      ensures DoHasCurrent() && innerHit.Some? && EveryHitNested() ==>
                indexPerLevel[0] < |hits| && indexPerLevel[1] < |flatInnerHits[indexPerLevel[0]]|
    {
      if row < size && innerHit.Some? && EveryHitNested() then
        EnumerateValid(ChildCounts(), 0, row);
        true
      else
        row < size
    }

    /** extractValue: the hit, or inner hit, the extractor reads at the
        current position; it changes nothing. */
    method ExtractValue(e: Extractor) returns (r: Result<Extracted, RowSetError>)
      requires Valid()
      ensures r == ValueAt(hits, flatInnerHits, innerHit, indexPerLevel[..], e)
    {
      var extractorLevel := if e.hitName.None? then 0 else 1;
      var hit: Option<Extracted> := None;
      var lvl := 0;
      while lvl <= extractorLevel
        invariant 0 <= lvl <= extractorLevel + 1
        invariant lvl == 0 <==> hit.None?
        invariant lvl >= 1 ==> 0 <= indexPerLevel[0] < |hits|
        invariant lvl == 1 ==> hit == Some(TopLevel(hits[indexPerLevel[0]]))
        invariant lvl == 2 ==> innerHit.Some? && 0 <= indexPerLevel[1] < |flatInnerHits[indexPerLevel[0]]|
                               && hit == Some(Nested(flatInnerHits[indexPerLevel[0]][indexPerLevel[1]]))
      {
        var shLen;
        if hit.None? {
          shLen := |hits|;  // sh = hits
        } else {
          if innerHit.None? {
            return Failure(NullReference);  // flatInnerHits.get(hit) is null
          }
          shLen := |flatInnerHits[indexPerLevel[0]]|;
        }
        var at := indexPerLevel[lvl];
        if at >= shLen {
          return Failure(IndexOutOfBounds);
        }
        hit := if hit.None? then Some(TopLevel(hits[at])) else Some(Nested(flatInnerHits[indexPerLevel[0]][at]));
        lvl := lvl + 1;
      }
      r := Success(hit.value);
    }

    /** doNext: past the last row nothing changes and the answer is false;
        otherwise the row advances by one and the level indexes take one
        odometer step. Without a nested path, or with every hit nested, the
        step never fails and the indexes follow the enumeration. */
    method DoNext() returns (r: Result<bool, RowSetError>)
      requires Valid()
      modifies this, indexPerLevel
      ensures Valid()
      ensures old(row) >= size - 1 ==>
                r == Success(false) && row == old(row) && indexPerLevel[..] == old(indexPerLevel[..])
      ensures old(row) < size - 1 ==>
                var step := Odometer(|hits|, ChildCounts(), old(indexPerLevel[..]));
                && row == old(row) + 1
                && indexPerLevel[..] == step.indices
                && r == (if step.ok then Success(true) else Failure(IndexOutOfBounds))
      ensures innerHit.None? || EveryHitNested() ==> r.Success?
    {
      if row < size - 1 {
        ghost var before := indexPerLevel[..];
        ghost var L := indexPerLevel.Length;
        row := row + 1;
        var last := indexPerLevel.Length - 1;
        indexPerLevel[last] := indexPerLevel[last] + 1;
        var shLen := |hits|;  // sh = hits
        var lvl := 0;
        ghost var carried := false;
        var failed := false;
        while lvl < indexPerLevel.Length
          invariant 0 <= lvl <= L
          invariant row == old(row) + 1
          invariant L == 1 ==> !carried && shLen == |hits| && indexPerLevel[..] == [before[0] + 1]
                                && (lvl == 1 ==> 0 <= before[0] + 1 < |hits|)
          invariant L == 2 && !carried ==>
                      && indexPerLevel[..] == [before[0], before[1] + 1]
                      && (lvl == 0 ==> shLen == |hits|)
                      && (lvl >= 1 ==> 0 <= before[0] < |hits| && shLen == |flatInnerHits[before[0]]|)
                      && (lvl == 2 ==> 0 <= before[1] + 1 < |flatInnerHits[before[0]]|)
          invariant L == 2 && carried ==>
                      && 0 <= before[0] < |hits| && before[1] + 1 == |flatInnerHits[before[0]]|
                      && indexPerLevel[..] == [before[0] + 1, 0]
                      && lvl >= 1 && (lvl == 1 ==> shLen == |hits|)
          decreases (if carried then 0 else 2) + L - lvl
        {
          if indexPerLevel[lvl] == shLen {
            // reset the current level and bump its parent
            indexPerLevel[lvl] := 0;
            if lvl == 0 {
              failed := true;  // indexPerLevel[-1] is out of bounds
              break;
            }
            indexPerLevel[lvl - 1] := indexPerLevel[lvl - 1] + 1;
            // restart the loop; the loop's own increment follows
            lvl := 0;
            shLen := |hits|;
            carried := true;
          } else {
            if !(0 <= indexPerLevel[lvl] < shLen) {
              failed := true;  // sh[indexPerLevel[lvl]] is out of bounds
              break;
            }
            if lvl == 0 && innerHit.Some? {
              shLen := |flatInnerHits[indexPerLevel[0]]|;
            }
          }
          lvl := lvl + 1;
        }
        r := if failed then Failure(IndexOutOfBounds) else Success(true);
        if innerHit.Some? && EveryHitNested() {
          EnumerateStep(ChildCounts(), 0, old(row));
        }
      } else {
        r := Success(false);
      }
    }

    /** doReset: back to the first row, every level index 0. The new state
        does not depend on the old one, so resetting twice is resetting once. */
    method DoReset()
      requires Valid()
      modifies this, indexPerLevel
      ensures Valid()
      ensures row == 0 && forall l :: 0 <= l < indexPerLevel.Length ==> indexPerLevel[l] == 0
    {
      row := 0;
      forall l | 0 <= l < indexPerLevel.Length {
        indexPerLevel[l] := 0;
      }
      if innerHit.Some? && EveryHitNested() && 0 < size {
        EnumerateFirst(ChildCounts());
        assert indexPerLevel[..] == [0, 0];
      }
    }
  }
}
