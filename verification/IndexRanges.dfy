/** vllm/vllm/model_inspection.py, `_format_index_ranges`: runs of consecutive indices as ranges. The
    rendering of the ranges as text is not modelled. */
module IndexRanges {
  import opened Common

  datatype Range = Range(lo: int, hi: int) {
    function Expand(): (s: seq<int>)
      ensures |s| == Max(hi - lo + 1, 0) && forall i :: 0 <= i < |s| ==> s[i] == lo + i
    {
      seq(Max(hi - lo + 1, 0), i => lo + i)
    }
  }

  function ExpandAll(rs: seq<Range>): (s: seq<int>) {
    if rs == [] then [] else ExpandAll(rs[..|rs| - 1]) + rs[|rs| - 1].Expand()
  }

  // ---- sorting -----------------------------------------------------------------------------------

  ghost predicate Sorted(s: seq<int>) {
    forall i, j :: 0 <= i < j < |s| ==> s[i] <= s[j]
  }

  function Insert(x: int, s: seq<int>): (r: seq<int>) {
    if s == [] then [x] else if x <= s[0] then [x] + s else [s[0]] + Insert(x, s[1..])
  }

  function Sort(s: seq<int>): (r: seq<int>) {
    if s == [] then [] else Insert(s[0], Sort(s[1..]))
  }

  lemma {:induction false} InsertKeeps(x: int, s: seq<int>)
    ensures multiset(Insert(x, s)) == multiset(s) + multiset{x}
  {
    if s != [] {
      assert s == [s[0]] + s[1..];
      if x > s[0] {
        InsertKeeps(x, s[1..]);
      }
    }
  }

  lemma SortedCons(x: int, s: seq<int>)
    requires Sorted(s) && forall y :: y in multiset(s) ==> x <= y
    ensures Sorted([x] + s)
  {
    forall i | 0 <= i < |s|
      ensures x <= s[i]
    {
      assert s[i] in multiset(s);
    }
  }

  lemma {:induction false} InsertSorts(x: int, s: seq<int>)
    requires Sorted(s)
    ensures Sorted(Insert(x, s))
  {
    if s != [] {
      if x > s[0] {
        InsertSorts(x, s[1..]);
        InsertKeeps(x, s[1..]);
        assert forall y :: y in s[1..] ==> s[0] <= y;
        SortedCons(s[0], Insert(x, s[1..]));
      } else {
        SortedCons(x, s);
      }
    }
  }

  lemma {:induction false} SortSorts(s: seq<int>)
    ensures Sorted(Sort(s)) && multiset(Sort(s)) == multiset(s)
  {
    if s != [] {
      SortSorts(s[1..]);
      InsertSorts(s[0], Sort(s[1..]));
      InsertKeeps(s[0], Sort(s[1..]));
      assert s == [s[0]] + s[1..];
    }
  }

  // ---- compression -------------------------------------------------------------------------------

  /** Each range is non-empty and does not continue the one before it. */
  ghost predicate Separated(rs: seq<Range>) {
    && (forall k :: 0 <= k < |rs| ==> rs[k].lo <= rs[k].hi)
    && (forall k, l :: 0 <= k && l == k + 1 && l < |rs| ==> Follows(rs[k], rs[l]))
  }

  predicate Follows(r: Range, r': Range) {
    r.hi <= r'.lo && r'.lo != r.hi + 1
  }

  lemma ExpandLast(rs: seq<Range>, r: Range)
    ensures ExpandAll(rs + [r]) == ExpandAll(rs) + r.Expand()
  {
    assert (rs + [r])[..|rs|] == rs;
  }

  /** Round trip: the ranges expand to the sorted indices, duplicates included. The first index of an
      empty list is an error. */
  method FormatIndexRanges(indices: seq<int>) returns (r: Option<seq<Range>>)
    ensures r.None? <==> indices == []
    ensures r.Some? ==> ExpandAll(r.value) == Sort(indices) && Separated(r.value)
    ensures r.Some? ==> (Minimal(r.value) <==> NoDuplicates(Sort(indices)))
  {
    var s := Sort(indices);
    if indices == [] {
      return None;
    }
    SortSorts(indices);
    assert |multiset(s)| == |multiset(indices)|;
    var ranges := [];
    var start, end := s[0], s[0];
    assert s[..1] == Range(start, end).Expand();
    for i := 1 to |s|
      invariant Compressed(s, i, ranges, start, end)
    {
      var idx := s[i];
      CompressNext(s, i, ranges, start, end);
      if idx == end + 1 {
        end := idx;
      } else {
        ranges := ranges + [Range(start, end)];
        start, end := idx, idx;
      }
    }
    ExpandLast(ranges, Range(start, end));
    assert s[..|s|] == s;
    MinimalIffNoDuplicates(ranges + [Range(start, end)]);
    r := Some(ranges + [Range(start, end)]);
  }

  /** The first `i` indices are compressed; the last range may still grow. */
  ghost predicate Compressed(s: seq<int>, i: nat, rs: seq<Range>, start: int, end: int) {
    && 0 < i <= |s| && start <= end == s[i - 1]
    && s[..i] == ExpandAll(rs) + Range(start, end).Expand() && Separated(rs + [Range(start, end)])
  }

  lemma CompressNext(s: seq<int>, i: nat, rs: seq<Range>, start: int, end: int)
    requires Sorted(s) && i < |s| && Compressed(s, i, rs, start, end)
    ensures if s[i] == end + 1 then Compressed(s, i + 1, rs, start, s[i])
            else Compressed(s, i + 1, rs + [Range(start, end)], s[i], s[i])
  {
    assert s[..i + 1] == s[..i] + [s[i]];
    NextIndex(rs, start, end, s[i]);
  }

  /** One more index extends the last range, or starts a new one. */
  lemma NextIndex(rs: seq<Range>, start: int, end: int, idx: int)
    requires start <= end <= idx && Separated(rs + [Range(start, end)])
    ensures var done := ExpandAll(rs) + Range(start, end).Expand() + [idx];
            if idx == end + 1
            then Separated(rs + [Range(start, idx)]) && done == ExpandAll(rs) + Range(start, idx).Expand()
            else && Separated(rs + [Range(start, end)] + [Range(idx, idx)])
                 && done == ExpandAll(rs + [Range(start, end)]) + Range(idx, idx).Expand()
  {
    var a := rs + [Range(start, end)];
    if idx == end + 1 {
      var b := rs + [Range(start, idx)];
      assert Range(start, idx).Expand() == Range(start, end).Expand() + [idx];
      assert forall k :: 0 <= k < |rs| ==> b[k] == a[k] == rs[k];
      forall k, l | 0 <= k && l == k + 1 && l < |b|
        ensures Follows(b[k], b[l])
      {
        assert Follows(a[k], a[l]);
      }
    } else {
      ExpandLast(rs, Range(start, end));
      assert Range(idx, idx).Expand() == [idx];
      var b := a + [Range(idx, idx)];
      forall k, l | 0 <= k && l == k + 1 && l < |b|
        ensures Follows(b[k], b[l])
      {
        if l < |a| {
          assert Follows(a[k], a[l]);
        }
      }
    }
  }

  // ---- minimality --------------------------------------------------------------------------------

  predicate Has(r: Range, x: int) {
    r.lo <= x <= r.hi
  }

  /** `rs` cover exactly the numbers in `s`. */
  ghost predicate Covers(rs: seq<Range>, s: seq<int>) {
    && (forall k, x :: 0 <= k < |rs| && Has(rs[k], x) ==> x in s)
    && (forall x :: x in s ==> Covered(rs, x))
  }

  ghost predicate Covered(rs: seq<Range>, x: int) {
    exists k :: 0 <= k < |rs| && Has(rs[k], x)
  }

  ghost predicate NoDuplicates(s: seq<int>) {
    forall i, j :: 0 <= i < j < |s| ==> s[i] != s[j]
  }

  lemma {:induction false} ExpandMembers(rs: seq<Range>, x: int)
    ensures x in ExpandAll(rs) <==> Covered(rs, x)
  {
    if rs != [] {
      var n := |rs| - 1;
      ExpandMembers(rs[..n], x);
      var e := rs[n].Expand();
      assert Has(rs[n], x) ==> e[x - rs[n].lo] == x;
      assert rs == rs[..n] + [rs[n]];
    }
  }

  lemma ExpandIsCovered(rs: seq<Range>)
    ensures Covers(rs, ExpandAll(rs))
  {
    forall x
      ensures x in ExpandAll(rs) <==> Covered(rs, x)
    {
      ExpandMembers(rs, x);
    }
  }

  /** Later ranges start at or after the end of earlier ones. */
  lemma {:induction false} RangesInOrder(rs: seq<Range>, k: nat, l: nat)
    requires Separated(rs) && k < l < |rs|
    ensures rs[k].hi <= rs[l].lo
    decreases l
  {
    assert Follows(rs[l - 1], rs[l]);
    if k < l - 1 {
      RangesInOrder(rs, k, l - 1);
    }
  }

  /** Strictly apart: at least one number is left out between neighbours. */
  ghost predicate Gapped(rs: seq<Range>) {
    Separated(rs) && forall k, l :: 0 <= k && l == k + 1 && l < |rs| ==> rs[k].hi + 1 < rs[l].lo
  }

  /** The number just before a range is not covered. */
  lemma GapBefore(rs: seq<Range>, l: nat)
    requires Gapped(rs) && l < |rs|
    ensures !Covered(rs, rs[l].lo - 1)
  {
    var x := rs[l].lo - 1;
    forall k | 0 <= k < |rs|
      ensures !Has(rs[k], x)
    {
      if k > l {
        RangesInOrder(rs, l, k);
      } else if k < l {
        assert rs[l - 1].hi + 1 < rs[l].lo;
        if k < l - 1 {
          RangesInOrder(rs, k, l - 1);
        }
      }
    }
  }

  lemma RangesApart(rs: seq<Range>, k: nat, l: nat)
    requires Gapped(rs) && k < l < |rs|
    ensures rs[k].hi + 1 < rs[l].lo
  {
    assert rs[l - 1].hi + 1 < rs[l].lo;
    if k < l - 1 {
      RangesInOrder(rs, k, l - 1);
    }
  }

  /** n distinct numbers below m: n is at most m. */
  lemma {:induction false} Pigeonhole(f: seq<nat>, m: nat)
    requires forall i :: 0 <= i < |f| ==> f[i] < m
    requires forall i, j :: 0 <= i < j < |f| ==> f[i] != f[j]
    ensures |f| <= m
    decreases m
  {
    if f != [] {
      assert f[0] < m;
      if m - 1 in f {
        var i :| 0 <= i < |f| && f[i] == m - 1;
        Pigeonhole(f[..i] + f[i + 1..], m - 1);
      } else {
        Pigeonhole(f, m - 1);
      }
    }
  }

  /** Which of the covering ranges holds the start of each of the first `n` ranges. */
  lemma {:induction false} StartsAreHeld(rs: seq<Range>, cover: seq<Range>, s: seq<int>, n: nat) returns (f: seq<nat>)
    requires Separated(rs) && Covers(rs, s) && Covers(cover, s) && n <= |rs|
    ensures |f| == n && forall i :: 0 <= i < n ==> f[i] < |cover| && Has(cover[f[i]], rs[i].lo)
  {
    if n == 0 {
      f := [];
    } else {
      f := StartsAreHeld(rs, cover, s, n - 1);
      assert Has(rs[n - 1], rs[n - 1].lo);
      assert Covered(cover, rs[n - 1].lo);
      var k :| 0 <= k < |cover| && Has(cover[k], rs[n - 1].lo);
      f := f + [k];
    }
  }

  /** Gapped ranges cannot be covered by fewer. */
  lemma GappedIsMinimal(rs: seq<Range>, cover: seq<Range>, s: seq<int>)
    requires Gapped(rs) && Covers(rs, s) && Covers(cover, s)
    ensures |rs| <= |cover|
  {
    var f := StartsAreHeld(rs, cover, s, |rs|);
    forall i, j | 0 <= i < j < |f|
      ensures f[i] != f[j]
    {
      GapBefore(rs, j);
      RangesApart(rs, i, j);
      assert f[i] == f[j] ==> Has(cover[f[j]], rs[j].lo - 1);
    }
    Pigeonhole(f, |cover|);
  }

  /** The indices are without duplicates exactly if their ranges are gapped. */
  lemma {:induction false} GappedIffNoDuplicates(rs: seq<Range>)
    requires Separated(rs)
    ensures Gapped(rs) <==> NoDuplicates(ExpandAll(rs))
    decreases |rs|
  {
    if rs != [] {
      var n := |rs| - 1;
      var p, r := rs[..n], rs[n];
      forall k, l | 0 <= k && l == k + 1 && l < n
        ensures Follows(p[k], p[l])
      {
        assert Follows(rs[k], rs[l]);
      }
      GappedIffNoDuplicates(p);
      assert ExpandAll(rs) == ExpandAll(p) + r.Expand();
      if n > 0 {
        assert Follows(rs[n - 1], rs[n]);
        SharedOnlyAtSeam(p, r);
      }
      NoDuplicatesConcat(ExpandAll(p), r.Expand());
      assert Gapped(rs) <==> Gapped(p) && (n > 0 ==> p[n - 1].hi + 1 < r.lo) by {
        assert forall k :: 0 <= k < n ==> p[k] == rs[k];
      }
    }
  }

  lemma NoDuplicatesConcat(a: seq<int>, b: seq<int>)
    ensures NoDuplicates(a + b) <==> NoDuplicates(a) && NoDuplicates(b) && forall x :: x in a ==> x !in b
  {
    var c := a + b;
    if NoDuplicates(c) {
      forall i, j | 0 <= i < j < |a|
        ensures a[i] != a[j]
      {
        assert c[i] != c[j];
      }
      forall i, j | 0 <= i < j < |b|
        ensures b[i] != b[j]
      {
        assert c[|a| + i] != c[|a| + j];
      }
      forall i, j | 0 <= i < |a| && 0 <= j < |b|
        ensures a[i] != b[j]
      {
        assert c[i] != c[|a| + j];
      }
    }
    if NoDuplicates(a) && NoDuplicates(b) && forall x :: x in a ==> x !in b {
      forall i, j | 0 <= i < j < |c|
        ensures c[i] != c[j]
      {
        assert i < |a| ==> c[i] in a;
        assert j >= |a| ==> c[j] in b;
        assert i >= |a| ==> c[i] == b[i - |a|] && c[j] == b[j - |a|];
      }
    }
  }

  lemma ExpandBounded(p: seq<Range>, x: int)
    requires Separated(p) && x in ExpandAll(p)
    ensures p != [] && x <= p[|p| - 1].hi
  {
    ExpandMembers(p, x);
    var k :| 0 <= k < |p| && Has(p[k], x);
    if k < |p| - 1 {
      RangesInOrder(p, k, |p| - 1);
    }
  }

  lemma ExpandHasLast(p: seq<Range>)
    requires Separated(p) && p != []
    ensures p[|p| - 1].hi in ExpandAll(p)
  {
    ExpandMembers(p, p[|p| - 1].hi);
    assert Has(p[|p| - 1], p[|p| - 1].hi);
  }

  lemma RangeMembers(r: Range, x: int)
    ensures x in r.Expand() <==> Has(r, x)
  {
    assert Has(r, x) ==> r.Expand()[x - r.lo] == x;
  }

  /** A range that follows others shares a number with them exactly if it starts where they end. */
  lemma SharedOnlyAtSeam(p: seq<Range>, r: Range)
    requires Separated(p) && p != [] && Follows(p[|p| - 1], r) && r.lo <= r.hi
    ensures (exists x :: x in ExpandAll(p) && x in r.Expand()) <==> p[|p| - 1].hi == r.lo
  {
    ExpandHasLast(p);
    RangeMembers(r, r.lo);
    if x :| x in ExpandAll(p) && x in r.Expand() {
      ExpandBounded(p, x);
      RangeMembers(r, x);
    }
  }

  /** No shorter list of ranges covers the same indices, exactly if the list has no duplicates. */
  ghost predicate Minimal(rs: seq<Range>) {
    forall cover :: Covers(cover, ExpandAll(rs)) ==> |rs| <= |cover|
  }

  lemma MinimalIffNoDuplicates(rs: seq<Range>)
    requires Separated(rs)
    ensures Minimal(rs) <==> NoDuplicates(ExpandAll(rs))
  {
    GappedIffNoDuplicates(rs);
    ExpandIsCovered(rs);
    if Gapped(rs) {
      forall cover | Covers(cover, ExpandAll(rs))
        ensures |rs| <= |cover|
      {
        GappedIsMinimal(rs, cover, ExpandAll(rs));
      }
    } else {
      var k, l :| 0 <= k && l == k + 1 && l < |rs| && !(rs[k].hi + 1 < rs[l].lo);
      assert Follows(rs[k], rs[l]);
      JoinRanges(rs, k);
    }
  }

  function Joined(rs: seq<Range>, k: nat): (cover: seq<Range>)
    requires k + 1 < |rs|
  {
    rs[..k] + [Range(rs[k].lo, rs[k + 1].hi)] + rs[k + 2..]
  }

  lemma JoinedCovers(rs: seq<Range>, k: nat, x: int)
    requires Separated(rs) && k + 1 < |rs| && rs[k].hi == rs[k + 1].lo
    ensures Covered(Joined(rs, k), x) <==> Covered(rs, x)
  {
    var j, cover := Range(rs[k].lo, rs[k + 1].hi), Joined(rs, k);
    assert cover[k] == j;
    assert Has(j, x) <==> Has(rs[k], x) || Has(rs[k + 1], x);
    if Covered(rs, x) {
      var i :| 0 <= i < |rs| && Has(rs[i], x);
      assert Has(cover[if i <= k then i else i - 1], x);
    }
    if Covered(cover, x) {
      var i :| 0 <= i < |cover| && Has(cover[i], x);
      assert i < k ==> cover[i] == rs[i];
      assert i > k ==> cover[i] == rs[i + 1];
    }
  }

  /** Two ranges that share their seam can be joined. */
  lemma JoinRanges(rs: seq<Range>, k: nat)
    requires Separated(rs) && k + 1 < |rs| && rs[k].hi == rs[k + 1].lo
    ensures exists cover :: Covers(cover, ExpandAll(rs)) && |cover| == |rs| - 1
  {
    var cover := Joined(rs, k);
    forall x
      ensures x in ExpandAll(rs) <==> Covered(cover, x)
    {
      ExpandMembers(rs, x);
      JoinedCovers(rs, k, x);
    }
    assert Covers(cover, ExpandAll(rs));
  }
}
