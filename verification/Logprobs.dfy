/** vllm/vllm/logprobs.py: `FlatLogprobs`, a list of dictionaries kept in six parallel lists. */
module Logprobs {
  import opened Common

  datatype Logprob = Logprob(logprob: real, rank: Option<int>, decodedToken: Option<string>)

  /** A dictionary's items in insertion order. */
  type Items = seq<(int, Logprob)>

  /** What a dictionary comprehension makes of its pairs: the last pair for a key wins. */
  function AsMap(items: Items): (m: map<int, Logprob>) {
    if items == [] then map[] else AsMap(items[..|items| - 1])[items[|items| - 1].0 := items[|items| - 1].1]
  }

  /** The keys are those of the pairs. */
  lemma {:induction false} AsMapKeys(items: Items, key: int)
    ensures key in AsMap(items) <==> exists i :: 0 <= i < |items| && items[i].0 == key
  {
    if items != [] {
      AsMapKeys(items[..|items| - 1], key);
    }
  }

  /** A key has the value of its last pair. */
  lemma {:induction false} AsMapLast(items: Items, i: nat)
    requires i < |items| && forall j :: i < j < |items| ==> items[j].0 != items[i].0
    ensures items[i].0 in AsMap(items) && AsMap(items)[items[i].0] == items[i].1
  {
    if i < |items| - 1 {
      AsMapLast(items[..|items| - 1], i);
    }
  }

  ghost predicate DistinctKeys(items: Items) {
    forall i, j :: 0 <= i < j < |items| ==> items[i].0 != items[j].0
  }

  /** The pairs of a dictionary make up the dictionary. */
  lemma DictionaryOfItems(items: Items, m: map<int, Logprob>)
    requires DistinctKeys(items) && m == AsMap(items)
    ensures forall key, value :: (key in m && m[key] == value) <==> (key, value) in items
  {
    forall key, value
      ensures (key in m && m[key] == value) <==> (key, value) in items
    {
      AsMapKeys(items, key);
      if i :| 0 <= i < |items| && items[i].0 == key {
        AsMapLast(items, i);
        assert forall j :: 0 <= j < |items| && items[j].0 == key ==> j == i;
      }
    }
  }

  // ---- the abstract value ------------------------------------------------------------------------

  /** The six columns. */
  datatype Columns = Columns(startIndices: seq<int>, endIndices: seq<int>, tokenIds: seq<int>,
                             logprobs: seq<real>, ranks: seq<Option<int>>, decodedTokens: seq<Option<string>>)
  {
    /** Ranges in order, disjoint and in bounds. After a slice with a step they need not touch. */
    ghost predicate Valid() {
      && |startIndices| == |endIndices|
      && |tokenIds| == |logprobs| == |ranks| == |decodedTokens|
      && (forall p {:trigger InBounds(p)} :: 0 <= p < |startIndices| ==> InBounds(p))
      && (forall p, q {:trigger Apart(p, q)} :: 0 <= p < q < |startIndices| ==> Apart(p, q))
    }

    ghost predicate InBounds(p: int)
      requires 0 <= p < |startIndices| == |endIndices|
    {
      0 <= startIndices[p] <= endIndices[p] <= |logprobs|
    }

    ghost predicate Apart(p: int, q: int)
      requires 0 <= p < |startIndices| == |endIndices| && 0 <= q < |startIndices|
    {
      endIndices[p] <= startIndices[q]
    }

    /** The flat entries `lo` to `hi`. */
    function Entries(lo: int, hi: int): (items: Items)
      requires |tokenIds| == |logprobs| == |ranks| == |decodedTokens|
      requires 0 <= lo <= hi <= |logprobs|
      ensures |items| == hi - lo
    {
      seq(hi - lo, i requires 0 <= i < hi - lo =>
        (tokenIds[lo + i], Logprob(logprobs[lo + i], ranks[lo + i], decodedTokens[lo + i])))
    }

    /** The token id occurs in the flat entries lo to hi. */
    ghost predicate Occurs(key: int, lo: int, hi: int)
      requires 0 <= lo <= hi <= |tokenIds|
    {
      exists i :: lo <= i < hi && tokenIds[i] == key
    }

    /** It occurs at `i`, and nowhere behind it before `hi`. */
    ghost predicate LastOccurrence(i: int, hi: int)
      requires 0 <= i < hi <= |tokenIds|
    {
      forall j :: i < j < hi ==> tokenIds[j] != tokenIds[i]
    }

    /** `m` has exactly the token ids of the flat entries lo to hi as keys, each with the columns' entry at
        its last occurrence. */
    ghost predicate Shows(m: map<int, Logprob>, lo: int, hi: int)
      requires |tokenIds| == |logprobs| == |ranks| == |decodedTokens| && 0 <= lo <= hi <= |logprobs|
    {
      && (forall key {:trigger Occurs(key, lo, hi)} :: key in m <==> Occurs(key, lo, hi))
      && (forall i {:trigger LastOccurrence(i, hi)} :: lo <= i < hi && LastOccurrence(i, hi) ==>
            tokenIds[i] in m && m[tokenIds[i]] == Logprob(logprobs[i], ranks[i], decodedTokens[i]))
    }

    lemma EntriesShow(lo: int, hi: int)
      requires |tokenIds| == |logprobs| == |ranks| == |decodedTokens| && 0 <= lo <= hi <= |logprobs|
      ensures Shows(AsMap(Entries(lo, hi)), lo, hi)
    {
      var entries := Entries(lo, hi);
      forall key
        ensures key in AsMap(entries) <==> Occurs(key, lo, hi)
      {
        AsMapKeys(entries, key);
        if i :| lo <= i < hi && tokenIds[i] == key {
          assert entries[i - lo].0 == key;
        }
        if i :| 0 <= i < |entries| && entries[i].0 == key {
          assert tokenIds[lo + i] == key;
        }
      }
      forall i | lo <= i < hi && LastOccurrence(i, hi)
        ensures tokenIds[i] in AsMap(entries)
        ensures AsMap(entries)[tokenIds[i]] == Logprob(logprobs[i], ranks[i], decodedTokens[i])
      {
        assert forall j :: i - lo < j < |entries| ==> entries[j].0 == tokenIds[lo + j];
        AsMapLast(entries, i - lo);
      }
    }

    /** The dictionary at position `p`. */
    function At(p: int): (m: map<int, Logprob>)
      requires Valid() && 0 <= p < |startIndices|
    {
      assert InBounds(p);
      AsMap(Entries(startIndices[p], endIndices[p]))
    }

    /** The list of dictionaries that the columns stand for. */
    function Decoded(): (r: seq<map<int, Logprob>>)
      requires Valid()
      ensures |r| == |startIndices|
    {
      seq(|startIndices|, p requires 0 <= p < |startIndices| => At(p))
    }

    /** One more position, with these items. */
    function Append(items: Items): (c: Columns) {
      Columns(startIndices + [|logprobs|], endIndices + [|logprobs| + |items|],
              tokenIds + seq(|items|, i requires 0 <= i < |items| => items[i].0),
              logprobs + seq(|items|, i requires 0 <= i < |items| => items[i].1.logprob),
              ranks + seq(|items|, i requires 0 <= i < |items| => items[i].1.rank),
              decodedTokens + seq(|items|, i requires 0 <= i < |items| => items[i].1.decodedToken))
    }

    /** The columns halfway through `append`, after `i` items. */
    function Appending(items: Items, i: nat): (c: Columns)
      requires i <= |items|
    {
      Append(items[..i]).(endIndices := endIndices)
    }

    lemma AppendingMore(items: Items, i: nat)
      requires i < |items|
      ensures var c, item := Appending(items, i), items[i];
              Appending(items, i + 1) == c.(tokenIds := c.tokenIds + [item.0],
                                            logprobs := c.logprobs + [item.1.logprob],
                                            ranks := c.ranks + [item.1.rank],
                                            decodedTokens := c.decodedTokens + [item.1.decodedToken])
    {
    }

    /** The columns after `append_fast`. */
    lemma ZippedColumns(ts: seq<int>, ls: seq<real>, rs: seq<int>, ds: seq<Option<string>>)
      ensures var c, n := Append(Zip(ts, ls, rs, ds)), Min(Min(|ts|, |ls|), Min(|rs|, |ds|));
              && c.tokenIds == tokenIds + ts[..n] && c.logprobs == logprobs + ls[..n]
              && c.ranks == ranks + MapSeq(SomeRank, rs[..n]) && c.decodedTokens == decodedTokens + ds[..n]
    {
    }

    lemma AppendingDone(items: Items)
      ensures Append(items) == Appending(items, |items|).(endIndices := endIndices + [|logprobs| + |items|])
    {
      assert items[..|items|] == items;
    }

    lemma AppendAt(items: Items, p: int)
      requires Valid() && 0 <= p <= |startIndices|
      ensures Append(items).InBounds(p)
      ensures |Append(items).tokenIds| == |logprobs| + |items|
      ensures var c := Append(items);
              if p < |startIndices|
              then && InBounds(p)
                   && c.Entries(c.startIndices[p], c.endIndices[p]) == Entries(startIndices[p], endIndices[p])
              else c.Entries(c.startIndices[p], c.endIndices[p]) == items
    {
      if p < |startIndices| {
        assert InBounds(p);
      }
    }

    lemma AppendIsValid(items: Items)
      requires Valid()
      ensures Append(items).Valid()
    {
      var c, n := Append(items), |startIndices|;
      forall p | 0 <= p <= n
        ensures c.InBounds(p)
      {
        AppendAt(items, p);
      }
      forall p, q | 0 <= p < q <= n
        ensures c.Apart(p, q)
      {
        if q < n {
          assert Apart(p, q);
        } else {
          assert InBounds(p);
        }
      }
    }

    lemma AppendDecodes(items: Items)
      requires Valid()
      ensures Append(items).Valid()
      ensures Append(items).Decoded() == Decoded() + [AsMap(items)]
    {
      AppendIsValid(items);
      var c, n := Append(items), |startIndices|;
      forall p | 0 <= p <= n
        ensures c.At(p) == if p < n then At(p) else AsMap(items)
      {
        AppendAt(items, p);
      }
    }

    /** Reading back: a dictionary that has been appended is found again, item for item. */
    lemma AppendedReadsBack(items: Items)
      requires Valid() && DistinctKeys(items)
      ensures Append(items).Valid()
      ensures var m := Append(items).At(|startIndices|);
              forall key, value :: (key in m && m[key] == value) <==> (key, value) in items
    {
      AppendIsValid(items);
      AppendAt(items, |startIndices|);
      DictionaryOfItems(items, Append(items).At(|startIndices|));
    }

    function Extend(positions: seq<Items>): (c: Columns) {
      if positions == [] then this
      else Extend(positions[..|positions| - 1]).Append(positions[|positions| - 1])
    }

    lemma {:induction false} ExtendDecodes(positions: seq<Items>)
      requires Valid()
      ensures Extend(positions).Valid()
      ensures Extend(positions).Decoded() == Decoded() + MapSeq(AsMap, positions)
      decreases |positions|
    {
      if positions == [] {
        assert MapSeq(AsMap, positions) == [];
      } else {
        var n := |positions| - 1;
        ExtendDecodes(positions[..n]);
        Extend(positions[..n]).AppendDecodes(positions[n]);
        assert MapSeq(AsMap, positions) == MapSeq(AsMap, positions[..n]) + [AsMap(positions[n])];
      }
    }

    /** The positions lo, lo + step, ... below hi; indexing the first of none is an error. */
    function Slice(lo: nat, hi: nat, step: nat): (r: Option<Columns>)
      requires Valid() && hi <= |startIndices| && step >= 1
    {
      var starts, ends := Strided(startIndices, lo, hi, step), Strided(endIndices, lo, hi, step);
      if starts == [] || ends == [] then None
      else
        var min, max := starts[0], ends[|ends| - 1];
        Some(Columns(seq(|starts|, i requires 0 <= i < |starts| => starts[i] - min),
                     seq(|ends|, i requires 0 <= i < |ends| => ends[i] - min),
                     Cut(tokenIds, min, max), Cut(logprobs, min, max), Cut(ranks, min, max),
                     Cut(decodedTokens, min, max)))
    }

    /** The bounds of the selected positions p and q, and that they do not overlap. */
    lemma SlicePositions(lo: nat, hi: nat, step: nat, p: nat, q: nat)
      requires Valid() && lo < hi <= |startIndices| && step >= 1 && p <= q < Count(lo, hi, step)
      ensures |Strided(startIndices, lo, hi, step)| == |Strided(endIndices, lo, hi, step)| == Count(lo, hi, step)
      ensures var starts, ends := Strided(startIndices, lo, hi, step), Strided(endIndices, lo, hi, step);
              && 0 <= starts[p] <= ends[p] <= |logprobs| && 0 <= starts[q] <= ends[q] <= |logprobs|
              && starts[p] <= starts[q] && ends[p] <= ends[q] && (p < q ==> ends[p] <= starts[q])
    {
      StridedAt(startIndices, lo, hi, step, p);
      StridedAt(startIndices, lo, hi, step, q);
      StridedAt(endIndices, lo, hi, step, p);
      StridedAt(endIndices, lo, hi, step, q);
      PositionsGrow(lo, step, p, q);
      var x, y := Position(lo, step, p), Position(lo, step, q);
      assert InBounds(x) && InBounds(y) && (x < y ==> Apart(x, y));
    }

    /** The columns of a non-empty slice, from the bounds of its first and last position. */
    lemma SliceColumns(lo: nat, hi: nat, step: nat, p: nat)
      requires Valid() && lo < hi <= |startIndices| && step >= 1 && p < Count(lo, hi, step)
      ensures |Strided(startIndices, lo, hi, step)| == |Strided(endIndices, lo, hi, step)| == Count(lo, hi, step)
      ensures Slice(lo, hi, step).Some?
      ensures var starts, ends := Strided(startIndices, lo, hi, step), Strided(endIndices, lo, hi, step);
              var c := Slice(lo, hi, step).value;
              && |c.startIndices| == |c.endIndices| == |starts|
              && |c.tokenIds| == |c.logprobs| == |c.ranks| == |c.decodedTokens| == ends[|ends| - 1] - starts[0]
              && c.startIndices[p] == starts[p] - starts[0] && c.endIndices[p] == ends[p] - starts[0]
              && 0 <= c.startIndices[p] <= c.endIndices[p] <= |c.logprobs|
              && 0 <= starts[p] <= ends[p] <= |logprobs|
    {
      var n := Count(lo, hi, step);
      SlicePositions(lo, hi, step, 0, p);
      SlicePositions(lo, hi, step, p, n - 1);
      SlicePositions(lo, hi, step, 0, n - 1);
    }

    /** Position `p` of the slice has the items that it has in the columns. */
    lemma SliceEntries(lo: nat, hi: nat, step: nat, p: nat)
      requires Valid() && lo < hi <= |startIndices| && step >= 1 && p < Count(lo, hi, step)
      ensures |Strided(startIndices, lo, hi, step)| == |Strided(endIndices, lo, hi, step)| == Count(lo, hi, step)
      ensures Slice(lo, hi, step).Some?
      ensures var starts, ends := Strided(startIndices, lo, hi, step), Strided(endIndices, lo, hi, step);
              var c := Slice(lo, hi, step).value;
              && p < |c.startIndices| == |c.endIndices|
              && |c.tokenIds| == |c.logprobs| == |c.ranks| == |c.decodedTokens|
              && 0 <= c.startIndices[p] <= c.endIndices[p] <= |c.logprobs|
              && 0 <= starts[p] <= ends[p] <= |logprobs|
              && c.Entries(c.startIndices[p], c.endIndices[p]) == Entries(starts[p], ends[p])
    {
      SliceColumns(lo, hi, step, p);
      var starts, ends := Strided(startIndices, lo, hi, step), Strided(endIndices, lo, hi, step);
      SlicePositions(lo, hi, step, p, Count(lo, hi, step) - 1);
      EntriesOfCut(Slice(lo, hi, step).value, starts[0], ends[|ends| - 1], starts[p], ends[p]);
    }

    lemma EntriesOfCut(c: Columns, min: int, max: int, lo: int, hi: int)
      requires |tokenIds| == |logprobs| == |ranks| == |decodedTokens|
      requires 0 <= min <= lo <= hi <= max <= |logprobs|
      requires c.tokenIds == Cut(tokenIds, min, max) && c.logprobs == Cut(logprobs, min, max)
      requires c.ranks == Cut(ranks, min, max) && c.decodedTokens == Cut(decodedTokens, min, max)
      ensures c.Entries(lo - min, hi - min) == Entries(lo, hi)
    {
    }

    lemma SliceIsValid(lo: nat, hi: nat, step: nat)
      requires Valid() && lo < hi <= |startIndices| && step >= 1
      ensures Slice(lo, hi, step).Some? && Slice(lo, hi, step).value.Valid()
    {
      SliceColumns(lo, hi, step, 0);
      var c := Slice(lo, hi, step).value;
      forall p | 0 <= p < |c.startIndices|
        ensures c.InBounds(p)
      {
        SliceColumns(lo, hi, step, p);
      }
      forall p, q | 0 <= p < q < |c.startIndices|
        ensures c.Apart(p, q)
      {
        SliceColumns(lo, hi, step, p);
        SliceColumns(lo, hi, step, q);
        SlicePositions(lo, hi, step, p, q);
      }
    }

    /** A slice stands for the slice of the list of dictionaries, and is as well-formed as its source;
        it fails exactly when it would be empty. */
    lemma SliceDecodes(lo: nat, hi: nat, step: nat)
      requires Valid() && hi <= |startIndices| && step >= 1
      ensures Slice(lo, hi, step).None? <==> Strided(Decoded(), lo, hi, step) == []
      ensures Slice(lo, hi, step).Some? ==>
                && Slice(lo, hi, step).value.Valid()
                && Slice(lo, hi, step).value.Decoded() == Strided(Decoded(), lo, hi, step)
    {
      StridedSize(Decoded(), lo, hi, step);
      StridedSize(startIndices, lo, hi, step);
      if lo < hi {
        SliceIsValid(lo, hi, step);
        var c := Slice(lo, hi, step).value;
        forall p | 0 <= p < Count(lo, hi, step)
          ensures p < |c.startIndices| && c.At(p) == Strided(Decoded(), lo, hi, step)[p]
        {
          SliceEntries(lo, hi, step, p);
          StridedAt(Decoded(), lo, hi, step, p);
          StridedAt(startIndices, lo, hi, step, p);
          StridedAt(endIndices, lo, hi, step, p);
        }
        SliceColumns(lo, hi, step, 0);
      }
    }
  }

  // ---- slicing a list ----------------------------------------------------------------------------

  /** s[lo], s[lo + step], ... below hi. */
  function Strided<T>(s: seq<T>, lo: nat, hi: nat, step: nat): (r: seq<T>)
    requires hi <= |s| && step >= 1
    decreases hi - lo
  {
    if lo >= hi then [] else [s[lo]] + Strided(s, lo + step, hi, step)
  }

  function Count(lo: nat, hi: nat, step: nat): (n: nat)
    requires step >= 1
    decreases hi - lo
  {
    if lo >= hi then 0 else 1 + Count(lo + step, hi, step)
  }

  /** The k-th selected position. */
  function Position(lo: nat, step: nat, k: nat): (p: nat)
    decreases k
  {
    if k == 0 then lo else Position(lo + step, step, k - 1)
  }

  lemma {:induction false} PositionIsProduct(lo: nat, step: nat, k: nat)
    ensures Position(lo, step, k) == lo + k * step
    decreases k
  {
    if k > 0 {
      PositionIsProduct(lo + step, step, k - 1);
      assert k * step == (k - 1) * step + step;
    }
  }

  /** As many positions are selected as lie below hi. */
  lemma {:induction false} CountIff(lo: nat, hi: nat, step: nat, k: nat)
    requires step >= 1
    ensures k < Count(lo, hi, step) <==> lo + k * step < hi
    decreases k
  {
    if k > 0 {
      assert k * step == (k - 1) * step + step;
      if lo < hi {
        CountIff(lo + step, hi, step, k - 1);
      } else {
        assert (k - 1) * step >= 0;
      }
    }
  }

  lemma {:induction false} StridedSize<T>(s: seq<T>, lo: nat, hi: nat, step: nat)
    requires hi <= |s| && step >= 1
    ensures |Strided(s, lo, hi, step)| == Count(lo, hi, step)
    decreases hi - lo
  {
    if lo < hi {
      StridedSize(s, lo + step, hi, step);
    }
  }

  lemma {:induction false} StridedAt<T>(s: seq<T>, lo: nat, hi: nat, step: nat, k: nat)
    requires hi <= |s| && step >= 1 && k < Count(lo, hi, step)
    ensures |Strided(s, lo, hi, step)| == Count(lo, hi, step) && Position(lo, step, k) < hi
    ensures Strided(s, lo, hi, step)[k] == s[Position(lo, step, k)]
    decreases hi - lo
  {
    StridedSize(s, lo, hi, step);
    if k > 0 {
      StridedAt(s, lo + step, hi, step, k - 1);
    }
  }

  lemma {:induction false} PositionsGrow(lo: nat, step: nat, p: nat, q: nat)
    requires step >= 1 && p <= q
    ensures lo <= Position(lo, step, p) <= Position(lo, step, q)
    ensures p < q ==> Position(lo, step, p) < Position(lo, step, q)
    decreases q
  {
    if p > 0 {
      PositionsGrow(lo + step, step, p - 1, q - 1);
    } else if q > 0 {
      PositionsGrow(lo + step, step, 0, q - 1);
    }
  }

  /** The elements from `lo` up to `hi`. */
  function Cut<T>(s: seq<T>, lo: int, hi: int): (r: seq<T>) {
    if 0 <= lo <= hi <= |s| then seq(hi - lo, i requires 0 <= i < hi - lo => s[lo + i]) else []
  }

  /** How Python resolves a slice bound against a length, for a positive step. */
  function Bound(n: nat, bound: Option<int>, default: nat): (r: nat)
    requires default <= n
    ensures r <= n
  {
    match bound
    case None => default
    case Some(b) => if b < 0 then Max(b + n, 0) else Min(b, n)
  }

  /** Which positions a slice with these bounds selects: a negative bound counts from the end, and one that
      is left out selects everything on its side. */
  lemma BoundMeans(n: nat, start: Option<int>, stop: Option<int>, p: nat)
    requires p < n
    ensures Bound(n, start, 0) <= p <==>
              start.None? || (if start.value < 0 then n + start.value <= p else start.value <= p)
    ensures p < Bound(n, stop, n) <==>
              stop.None? || (if stop.value < 0 then p < n + stop.value else p < stop.value)
  {
  }

  // ---- any sequence of operations ----------------------------------------------------------------

  function SomeRank(rank: int): Option<int> {
    Some(rank)
  }

  /** Four parallel iterables, zipped: as many items as the shortest has. */
  function Zip(tokenIds: seq<int>, logprobs: seq<real>, ranks: seq<int>, decoded: seq<Option<string>>): (items: Items)
    ensures |items| == Min(Min(|tokenIds|, |logprobs|), Min(|ranks|, |decoded|))
  {
    var n := Min(Min(|tokenIds|, |logprobs|), Min(|ranks|, |decoded|));
    seq(n, i requires 0 <= i < n => (tokenIds[i], Logprob(logprobs[i], Some(ranks[i]), decoded[i])))
  }

  datatype Op =
    | Append(items: Option<Items>)
    | AppendFast(tokenIds: seq<int>, logprobs: seq<real>, ranks: seq<int>, decoded: seq<Option<string>>)
    | Extend(positions: seq<Option<Items>>)
    | Slice(start: Option<int>, stop: Option<int>, step: nat)

  /** Slices with a positive step; negative ones are not modelled. */
  predicate Supported(op: Op) {
    op.Slice? ==> op.step >= 1
  }

  /** The items of a missing dictionary are none. */
  function ItemsOf(d: Option<Items>): Items {
    if d.None? then [] else d.value
  }

  function AllItems(ds: seq<Option<Items>>): (r: seq<Items>)
    ensures |r| == |ds| && forall i :: 0 <= i < |r| ==> r[i] == ItemsOf(ds[i])
  {
    MapSeq(ItemsOf, ds)
  }

  /** One operation on the columns; None is the IndexError of an empty slice. */
  function OnColumns(c: Columns, op: Op): (r: Option<Columns>)
    requires c.Valid() && Supported(op)
    ensures r.Some? ==> r.value.Valid()
  {
    match op
    case Append(d) => c.AppendDecodes(ItemsOf(d)); Some(c.Append(ItemsOf(d)))
    case AppendFast(ts, ls, rs, ds) => c.AppendDecodes(Zip(ts, ls, rs, ds)); Some(c.Append(Zip(ts, ls, rs, ds)))
    case Extend(ps) => c.ExtendDecodes(AllItems(ps)); Some(c.Extend(AllItems(ps)))
    case Slice(start, stop, step) =>
      var n := |c.startIndices|;
      c.SliceDecodes(Bound(n, start, 0), Bound(n, stop, n), step);
      c.Slice(Bound(n, start, 0), Bound(n, stop, n), step)
  }

  /** An element of the plain list: a dictionary, or the None that was appended. */
  type Entry = Option<map<int, Logprob>>

  function EntryOf(d: Option<Items>): (e: Entry) {
    if d.None? then None else Some(AsMap(d.value))
  }

  function AllEntries(ds: seq<Option<Items>>): (r: seq<Entry>)
    ensures |r| == |ds| && forall i :: 0 <= i < |r| ==> r[i] == EntryOf(ds[i])
  {
    MapSeq(EntryOf, ds)
  }

  function Filled(e: Entry): (m: map<int, Logprob>) {
    if e.None? then map[] else e.value
  }

  /** The list with an empty dictionary in place of each None. */
  function AllFilled(l: seq<Entry>): (r: seq<map<int, Logprob>>)
    ensures |r| == |l| && forall p :: 0 <= p < |r| ==> r[p] == if l[p] == None then map[] else l[p].value
  {
    MapSeq(Filled, l)
  }

  /** A slice holds every `step`-th position, from the first that is selected on, while it is selected. */
  lemma SliceHolds(c: Columns, start: Option<int>, stop: Option<int>, step: nat, k: nat, p: nat)
    requires c.Valid() && step >= 1 && p == Bound(|c.startIndices|, start, 0) + k * step
    ensures var lo, hi := Bound(|c.startIndices|, start, 0), Bound(|c.startIndices|, stop, |c.startIndices|);
            var r := OnColumns(c, Op.Slice(start, stop, step));
            && (r.None? <==> hi <= lo)
            && (r.Some? ==> (k < |r.value.Decoded()| <==> p < hi))
            && (r.Some? && p < hi ==> r.value.Decoded()[k] == c.Decoded()[p])
  {
    var lo, hi := Bound(|c.startIndices|, start, 0), Bound(|c.startIndices|, stop, |c.startIndices|);
    c.SliceDecodes(lo, hi, step);
    StridedHolds(c.Decoded(), lo, hi, step, k, p);
  }

  lemma StridedHolds<T>(s: seq<T>, lo: nat, hi: nat, step: nat, k: nat, p: nat)
    requires hi <= |s| && step >= 1 && p == lo + k * step
    ensures Strided(s, lo, hi, step) == [] <==> hi <= lo
    ensures k < |Strided(s, lo, hi, step)| <==> p < hi
    ensures p < hi ==> Strided(s, lo, hi, step)[k] == s[p]
  {
    StridedSize(s, lo, hi, step);
    CountIff(lo, hi, step, k);
    PositionIsProduct(lo, step, k);
    if p < hi {
      StridedAt(s, lo, hi, step, k);
    }
  }

  lemma {:induction false} StridedOne<T>(s: seq<T>, lo: nat)
    requires lo <= |s|
    ensures Strided(s, lo, |s|, 1) == s[lo..]
    decreases |s| - lo
  {
    if lo < |s| {
      StridedOne(s, lo + 1);
    }
  }

  /** `flat[-k:]` is the last `k` positions, or all of them if there are not so many. */
  lemma LastPositions(c: Columns, k: nat)
    requires c.Valid() && k >= 1 && |c.startIndices| >= 1
    ensures var r := OnColumns(c, Op.Slice(Some(-(k as int)), None, 1));
            r.Some? && r.value.Decoded() == c.Decoded()[Max(|c.startIndices| - k, 0)..]
  {
    var n, lo := |c.startIndices|, Max(|c.startIndices| - k, 0);
    c.SliceDecodes(lo, n, 1);
    StridedOne(c.Decoded(), lo);
  }

  /** The same operation on a plain list. */
  function OnList(l: seq<Entry>, op: Op): (r: seq<Entry>)
    requires Supported(op)
  {
    match op
    case Append(d) => l + [EntryOf(d)]
    case AppendFast(ts, ls, rs, ds) => l + [Some(AsMap(Zip(ts, ls, rs, ds)))]
    case Extend(ds) => l + AllEntries(ds)
    case Slice(start, stop, step) => Strided(l, Bound(|l|, start, 0), Bound(|l|, stop, |l|), step)
  }

  lemma FilledSlice(l: seq<Entry>, lo: nat, hi: nat, step: nat)
    requires hi <= |l| && step >= 1
    ensures Strided(AllFilled(l), lo, hi, step) == AllFilled(Strided(l, lo, hi, step))
  {
    StridedSize(l, lo, hi, step);
    StridedSize(AllFilled(l), lo, hi, step);
    forall k | 0 <= k < Count(lo, hi, step)
      ensures Strided(AllFilled(l), lo, hi, step)[k] == Filled(Strided(l, lo, hi, step)[k])
    {
      StridedAt(l, lo, hi, step, k);
      StridedAt(AllFilled(l), lo, hi, step, k);
    }
  }

  lemma FilledItems(ds: seq<Option<Items>>)
    ensures MapSeq(AsMap, AllItems(ds)) == AllFilled(AllEntries(ds))
  {
  }

  lemma OpRefines(c: Columns, l: seq<Entry>, op: Op)
    requires c.Valid() && Supported(op) && c.Decoded() == AllFilled(l)
    ensures OnColumns(c, op).None? <==> op.Slice? && OnList(l, op) == []
    ensures OnColumns(c, op).Some? ==> OnColumns(c, op).value.Decoded() == AllFilled(OnList(l, op))
  {
    match op
    case Append(d) => c.AppendDecodes(ItemsOf(d));
    case AppendFast(ts, ls, rs, ds) => c.AppendDecodes(Zip(ts, ls, rs, ds));
    case Extend(ds) => ExtendRefines(c, l, ds);
    case Slice(start, stop, step) =>
      var n := |c.startIndices|;
      c.SliceDecodes(Bound(n, start, 0), Bound(n, stop, n), step);
      FilledSlice(l, Bound(n, start, 0), Bound(n, stop, n), step);
  }

  lemma ExtendRefines(c: Columns, l: seq<Entry>, ds: seq<Option<Items>>)
    requires c.Valid() && c.Decoded() == AllFilled(l)
    ensures c.Extend(AllItems(ds)).Valid()
    ensures c.Extend(AllItems(ds)).Decoded() == AllFilled(l + AllEntries(ds))
  {
    c.ExtendDecodes(AllItems(ds));
    FilledItems(ds);
  }

  function RunColumns(c: Columns, ops: seq<Op>): (r: Option<Columns>)
    requires c.Valid() && forall op :: op in ops ==> Supported(op)
    ensures r.Some? ==> r.value.Valid()
    decreases |ops|
  {
    if ops == [] then Some(c)
    else match OnColumns(c, ops[0])
         case None => None
         case Some(c') => RunColumns(c', ops[1..])
  }

  function RunList(l: seq<Entry>, ops: seq<Op>): (r: seq<Entry>)
    requires forall op :: op in ops ==> Supported(op)
    decreases |ops|
  {
    if ops == [] then l else RunList(OnList(l, ops[0]), ops[1..])
  }

  /** Some slice along the way selects nothing. */
  predicate SlicesNothing(l: seq<Entry>, ops: seq<Op>)
    requires forall op :: op in ops ==> Supported(op)
    decreases |ops|
  {
    ops != [] && ((ops[0].Slice? && OnList(l, ops[0]) == []) || SlicesNothing(OnList(l, ops[0]), ops[1..]))
  }

  /** Refinement: after any operations, slices of slices included, the columns stand for what the same
      operations make of a plain list. The two differences are that an empty slice fails, and that an
      empty dictionary is read back where the list holds None. */
  lemma {:induction false} RunRefines(c: Columns, l: seq<Entry>, ops: seq<Op>)
    requires c.Valid() && c.Decoded() == AllFilled(l) && forall op :: op in ops ==> Supported(op)
    ensures RunColumns(c, ops).None? <==> SlicesNothing(l, ops)
    ensures RunColumns(c, ops).Some? ==> RunColumns(c, ops).value.Decoded() == AllFilled(RunList(l, ops))
    decreases |ops|
  {
    if ops != [] {
      OpRefines(c, l, ops[0]);
      match OnColumns(c, ops[0])
      case None =>
      case Some(c') => RunRefines(c', OnList(l, ops[0]), ops[1..]);
    }
  }

  /** The columns read back as the very list exactly if it holds no None. */
  lemma SameUnlessMissing(c: Columns, l: seq<Entry>)
    requires c.Valid() && c.Decoded() == AllFilled(l)
    ensures (|c.Decoded()| == |l| && forall p :: 0 <= p < |l| ==> Some(c.Decoded()[p]) == l[p]) <==> None !in l
  {
    if None in l {
      var p :| 0 <= p < |l| && l[p] == None;
      assert Some(c.Decoded()[p]) != l[p];
    }
  }

  // ---- the container -----------------------------------------------------------------------------

  class FlatLogprobs {
    var startIndices: seq<int>
    var endIndices: seq<int>
    var tokenIds: seq<int>
    var logprobs: seq<real>
    var ranks: seq<Option<int>>
    var decodedTokens: seq<Option<string>>

    ghost function State(): Columns
      reads this
    {
      Columns(startIndices, endIndices, tokenIds, logprobs, ranks, decodedTokens)
    }

    constructor (startIndices: seq<int>, endIndices: seq<int>, tokenIds: seq<int>, logprobs: seq<real>,
                 ranks: seq<Option<int>>, decodedTokens: seq<Option<string>>)
      ensures State() == Columns(startIndices, endIndices, tokenIds, logprobs, ranks, decodedTokens)
    {
      this.startIndices, this.endIndices, this.tokenIds := startIndices, endIndices, tokenIds;
      this.logprobs, this.ranks, this.decodedTokens := logprobs, ranks, decodedTokens;
    }

    method AppendEntry(tokenId: int, logprob: Logprob)
      modifies this
      ensures State() == old(State()).(tokenIds := old(tokenIds) + [tokenId],
                                       logprobs := old(logprobs) + [logprob.logprob],
                                       ranks := old(ranks) + [logprob.rank],
                                       decodedTokens := old(decodedTokens) + [logprob.decodedToken])
    {
      tokenIds := tokenIds + [tokenId];
      logprobs := logprobs + [logprob.logprob];
      ranks := ranks + [logprob.rank];
      decodedTokens := decodedTokens + [logprob.decodedToken];
    }

    /** `append`: a dictionary, in insertion order, or None. */
    method Append(position: Option<Items>)
      requires State().Valid()
      modifies this
      ensures Some(State()) == OnColumns(old(State()), Op.Append(position))
      ensures State().Valid() && State().Decoded() == old(State().Decoded()) + [AsMap(ItemsOf(position))]
    {
      ghost var before, items := State(), ItemsOf(position);
      startIndices := startIndices + [|logprobs|];
      assert State() == before.Appending(items, 0);
      if position.Some? {
        for i := 0 to |position.value|
          invariant State() == before.Appending(items, i)
        {
          before.AppendingMore(items, i);
          AppendEntry(position.value[i].0, position.value[i].1);
        }
      }
      endIndices := endIndices + [|logprobs|];
      before.AppendingDone(items);
      before.AppendDecodes(items);
    }

    /** `append_fast`: the columns of one position, zipped. */
    method AppendFast(ts: seq<int>, ls: seq<real>, rs: seq<int>, ds: seq<Option<string>>)
      requires State().Valid()
      modifies this
      ensures Some(State()) == OnColumns(old(State()), Op.AppendFast(ts, ls, rs, ds))
      ensures State().Valid() && State().Decoded() == old(State().Decoded()) + [AsMap(Zip(ts, ls, rs, ds))]
      ensures var n := Min(Min(|ts|, |ls|), Min(|rs|, |ds|));
              && tokenIds == old(tokenIds) + ts[..n] && logprobs == old(logprobs) + ls[..n]
              && ranks == old(ranks) + MapSeq(SomeRank, rs[..n]) && decodedTokens == old(decodedTokens) + ds[..n]
    {
      ghost var before, items := State(), Zip(ts, ls, rs, ds);
      startIndices := startIndices + [|logprobs|];
      var n := Min(Min(|ts|, |ls|), Min(|rs|, |ds|));
      for i := 0 to n
        invariant State() == before.Appending(items, i)
      {
        before.AppendingMore(items, i);
        AppendEntry(ts[i], Logprob(ls[i], Some(rs[i]), ds[i]));
      }
      endIndices := endIndices + [|logprobs|];
      before.AppendingDone(items);
      before.ZippedColumns(ts, ls, rs, ds);
      before.AppendDecodes(items);
    }

    method Extend(positions: seq<Option<Items>>)
      requires State().Valid()
      modifies this
      ensures Some(State()) == OnColumns(old(State()), Op.Extend(positions))
      ensures State().Valid() && State().Decoded() == old(State().Decoded()) + MapSeq(AsMap, AllItems(positions))
    {
      ghost var before, items := State(), AllItems(positions);
      for i := 0 to |positions|
        invariant State() == before.Extend(items[..i]) && State().Valid()
      {
        assert items[..i + 1][..i] == items[..i];
        Append(positions[i]);
      }
      assert items[..|items|] == items;
      before.ExtendDecodes(items);
    }

    /** The dictionary comprehension of `__getitem__`. */
    method ReadRange(lo: int, hi: int) returns (m: map<int, Logprob>)
      requires |tokenIds| == |logprobs| == |ranks| == |decodedTokens| && 0 <= lo <= hi <= |logprobs|
      ensures m == AsMap(State().Entries(lo, hi)) && State().Shows(m, lo, hi)
    {
      m := map[];
      ghost var entries := State().Entries(lo, hi);
      for i := lo to hi
        invariant m == AsMap(entries[..i - lo])
      {
        assert entries[..i + 1 - lo][..i - lo] == entries[..i - lo];
        m := m[tokenIds[i] := Logprob(logprobs[i], ranks[i], decodedTokens[i])];
      }
      assert entries[..hi - lo] == entries;
      State().EntriesShow(lo, hi);
    }

    /** Indexing with an int; a negative one counts from the end. */
    method GetPosition(index: int) returns (r: Option<map<int, Logprob>>)
      requires State().Valid()
      ensures var l := State().Decoded(); var p := if index < 0 then index + |l| else index;
              r == if 0 <= p < |l| then Some(l[p]) else None
      ensures r.Some? ==> var p := if index < 0 then index + |startIndices| else index;
                0 <= p < |startIndices| && State().InBounds(p) && State().Shows(r.value, startIndices[p], endIndices[p])
    {
      var p := if index < 0 then index + |startIndices| else index;
      if p < 0 || p >= |startIndices| {
        return None;
      }
      assert State().InBounds(p);
      var m := ReadRange(startIndices[p], endIndices[p]);
      assert m == State().At(p);
      r := Some(m);
    }

    /** Indexing with a slice of positive step makes a container of its own. */
    method GetSlice(start: Option<int>, stop: Option<int>, step: nat) returns (r: Option<FlatLogprobs>)
      requires State().Valid() && step >= 1
      ensures r.None? <==> OnColumns(State(), Op.Slice(start, stop, step)).None?
      ensures r.Some? ==> fresh(r.value) && Some(r.value.State()) == OnColumns(State(), Op.Slice(start, stop, step))
    {
      var n := |startIndices|;
      var lo, hi := Bound(n, start, 0), Bound(n, stop, n);
      var starts, ends := Strided(startIndices, lo, hi, step), Strided(endIndices, lo, hi, step);
      if starts == [] || ends == [] {
        return None;
      }
      var min, max := starts[0], ends[|ends| - 1];
      var c := new FlatLogprobs(seq(|starts|, i requires 0 <= i < |starts| => starts[i] - min),
                                seq(|ends|, i requires 0 <= i < |ends| => ends[i] - min),
                                Cut(tokenIds, min, max), Cut(logprobs, min, max), Cut(ranks, min, max),
                                Cut(decodedTokens, min, max));
      r := Some(c);
    }
  }

  // ---- the two kinds of container ----------------------------------------------------------------

  /** The rank of the sampled token, then those of the top tokens. */
  function RanksFor(rank: int, numLogprobs: int, logprobsSize: nat): (r: seq<int>) {
    var n := Max(if numLogprobs == -1 then logprobsSize else numLogprobs, 0);
    [rank] + seq(n, i requires 0 <= i < n => i + 1)
  }

  /** Item 0 is the sampled token, with its own rank; item `i` is the top token of rank `i`. */
  lemma RankOfItem(tokenIds: seq<int>, logprobs: seq<real>, decoded: seq<Option<string>>, rank: int,
                   numLogprobs: int, i: nat)
    requires i < |Zip(tokenIds, logprobs, RanksFor(rank, numLogprobs, |logprobs|), decoded)|
    ensures i < |tokenIds| && i < |logprobs| && i < |decoded| && (numLogprobs >= 0 ==> i <= numLogprobs)
    ensures Zip(tokenIds, logprobs, RanksFor(rank, numLogprobs, |logprobs|), decoded)[i]
         == (tokenIds[i], Logprob(logprobs[i], Some(if i == 0 then rank else i), decoded[i]))
  {
  }

  /** The item count: one more than asked for, or as many as there are. */
  lemma ItemsAppended(tokenIds: seq<int>, logprobs: seq<real>, decoded: seq<Option<string>>, rank: int,
                      numLogprobs: int)
    requires |tokenIds| == |logprobs| == |decoded| && numLogprobs >= -1
    ensures |Zip(tokenIds, logprobs, RanksFor(rank, numLogprobs, |logprobs|), decoded)|
         == if numLogprobs == -1 then |logprobs| else Min(|logprobs|, numLogprobs + 1)
  {
  }

  /** What the branch for plain lists appends. */
  function AppendToList(l: seq<Entry>, tokenIds: seq<int>, logprobs: seq<real>,
                        decoded: seq<Option<string>>, rank: int, numLogprobs: int): (r: seq<Entry>) {
    l + [Some(AsMap(Zip(tokenIds, logprobs, RanksFor(rank, numLogprobs, |logprobs|), decoded)))]
  }

  /** The branch for flat containers: if the container stands for a list, it goes on to stand for what
      the other branch makes of that list. */
  method AppendForNextPosition(request: FlatLogprobs, tokenIds: seq<int>, logprobs: seq<real>,
                               decoded: seq<Option<string>>, rank: int, numLogprobs: int, ghost l: seq<Entry>)
    requires request.State().Valid() && request.State().Decoded() == AllFilled(l)
    modifies request
    ensures request.State().Valid()
    ensures request.State().Decoded() == AllFilled(AppendToList(l, tokenIds, logprobs, decoded, rank, numLogprobs))
  {
    var num := if numLogprobs == -1 then |logprobs| else numLogprobs;
    var topkRanks := seq(Max(num, 0), i requires 0 <= i < Max(num, 0) => i + 1);
    assert [rank] + topkRanks == RanksFor(rank, numLogprobs, |logprobs|);
    request.AppendFast(tokenIds, logprobs, [rank] + topkRanks, decoded);
  }
}
