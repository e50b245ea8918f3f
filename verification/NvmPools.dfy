/** Images of several pools: one after the other, split again by their sector counts. */
module NvmPools {
  import opened Bytes
  import opened NvmFormat
  import opened NvmAnalysis
  import opened NvmPlan
  import opened NvmImage
  import opened NvmRecovery
  import Raw = NvmRaw
  import opened Results

  datatype ImageError = SizeNotWholeSectors | WrongSectorCount | Ambiguous(poolId: nat)

  function OfPool(items: seq<NvmItem>, poolId: int): (mine: seq<NvmItem>)
    ensures forall x :: x in mine <==> x in items && x.poolId == poolId
  {
    if items == [] then []
    else
      var init, last := OfPool(items[..|items| - 1], poolId), items[|items| - 1];
      if last.poolId == poolId then init + [last] else init
  }

  function Sum(sizes: seq<nat>): nat {
    if sizes == [] then 0 else Sum(sizes[..|sizes| - 1]) + sizes[|sizes| - 1]
  }

  // ---------- generation ----------

  /** The plan of pool k. */
  function PoolPlan(items: seq<NvmItem>, sizes: seq<nat>, copies: nat, k: nat): Result<seq<Sector>, GenerateError>
    requires copies >= 1 && k < |sizes|
  {
    Plan(OfPool(items, k), sizes[k] / copies)
  }

  ghost predicate IsPoolImage(raw: seq<Byte>, items: seq<NvmItem>, sizes: seq<nat>, copies: nat, k: nat)
    requires copies >= 1 && k < |sizes|
  {
    PoolPlan(items, sizes, copies, k).Ok? &&
    IsImage(raw, PoolPlan(items, sizes, copies, k).value, sizes[k] / copies, copies, sizes[k])
  }

  /** The bytes of pool k. */
  function PoolSlice(raw: seq<Byte>, sizes: seq<nat>, k: nat): (s: seq<Byte>)
    requires k < |sizes| && |raw| == Sum(sizes) * SECTOR_SIZE
    ensures |s| == sizes[k] * SECTOR_SIZE
  {
    SumParts(sizes, k);
    raw[Sum(sizes[..k]) * SECTOR_SIZE..Sum(sizes[..k]) * SECTOR_SIZE + sizes[k] * SECTOR_SIZE]
  }

  lemma {:induction false} SumParts(sizes: seq<nat>, k: nat)
    requires k < |sizes|
    ensures Sum(sizes[..k + 1]) == Sum(sizes[..k]) + sizes[k] <= Sum(sizes)
    decreases |sizes|
  {
    assert sizes[..k + 1][..k] == sizes[..k];
    if k == |sizes| - 1 {
      assert sizes[..k + 1] == sizes;
    } else {
      var init := sizes[..|sizes| - 1];
      assert init[..k] == sizes[..k] && init[..k + 1] == sizes[..k + 1];
      SumParts(init, k);
    }
  }

  /** raw is made of the images of the pools, one after the other. */
  ghost predicate IsToolImage(raw: seq<Byte>, items: seq<NvmItem>, sizes: seq<nat>, copies: nat)
    requires copies >= 1
  {
    |raw| == Sum(sizes) * SECTOR_SIZE &&
    forall k :: 0 <= k < |sizes| ==> IsPoolImage(PoolSlice(raw, sizes, k), items, sizes, copies, k)
  }

  /** Pool k is the first that cannot be generated, and e says why. */
  predicate FirstFailure(items: seq<NvmItem>, sizes: seq<nat>, copies: nat, k: nat, e: GenerateError)
    requires copies >= 1
  {
    && k < |sizes| && PoolPlan(items, sizes, copies, k) == Err(e)
    && forall j :: 0 <= j < k ==> PoolPlan(items, sizes, copies, j).Ok?
  }

  /** Generate all pools; the first pool that fails decides the error. */
  method GenerateImage(items: seq<NvmItem>, sizes: seq<nat>, copies: nat)
    returns (res: Result<seq<Byte>, GenerateError>)
    requires copies >= 1
    ensures res.Ok? ==> IsToolImage(res.value, items, sizes, copies)
    ensures res.Err? ==> exists k: nat :: FirstFailure(items, sizes, copies, k, res.error)
  {
    hide IsImage, OfPool;
    var raw: seq<Byte> := [];
    for k := 0 to |sizes|
      invariant forall j :: 0 <= j < k ==> PoolPlan(items, sizes, copies, j).Ok?
      invariant IsToolImage(raw, items, sizes[..k], copies)
    {
      var mine := FilterPool(items, k);
      var poolData := GeneratePool(mine, sizes[k], copies);
      if poolData.Err? {
        assert FirstFailure(items, sizes, copies, k, poolData.error);
        return Err(poolData.error);
      }
      ImageLength(poolData.value, PoolPlan(items, sizes, copies, k).value, sizes[k] / copies, copies, sizes[k]);
      AppendPool(raw, poolData.value, items, sizes, copies, k);
      raw := raw + poolData.value;
    }
    assert sizes[..|sizes|] == sizes;
    res := Ok(raw);
  }

  method FilterPool(items: seq<NvmItem>, poolId: int) returns (mine: seq<NvmItem>)
    ensures mine == OfPool(items, poolId)
  {
    mine := [];
    for k := 0 to |items|
      invariant mine == OfPool(items[..k], poolId)
    {
      assert items[..k + 1][..k] == items[..k];
      if items[k].poolId == poolId {
        mine := mine + [items[k]];
      }
    }
    assert items[..|items|] == items;
  }

  lemma ImageLength(raw: seq<Byte>, plan: seq<Sector>, stride: nat, copies: nat, sectors: nat)
    requires IsImage(raw, plan, stride, copies, sectors)
    ensures |raw| == sectors * SECTOR_SIZE
  {}

  lemma AppendPool(raw: seq<Byte>, more: seq<Byte>, items: seq<NvmItem>, sizes: seq<nat>, copies: nat, k: nat)
    requires copies >= 1 && k < |sizes| && IsToolImage(raw, items, sizes[..k], copies)
    requires |more| == sizes[k] * SECTOR_SIZE && IsPoolImage(more, items, sizes, copies, k)
    ensures IsToolImage(raw + more, items, sizes[..k + 1], copies)
  {
    hide IsImage, PoolSlice, IsPoolImage, Sum;
    var sizes' := sizes[..k + 1];
    PrefixSums(sizes, k, k);
    forall j | 0 <= j <= k ensures IsPoolImage(PoolSlice(raw + more, sizes', j), items, sizes', copies, j) {
      SliceOfAppended(raw, more, sizes, k, j);
      if j < k {
        OwnSizeOnly(PoolSlice(raw, sizes[..k], j), items, sizes[..k], sizes', copies, j);
      } else {
        OwnSizeOnly(more, items, sizes, sizes', copies, k);
      }
    }
  }

  lemma OwnSizeOnly(raw: seq<Byte>, items: seq<NvmItem>, a: seq<nat>, b: seq<nat>, copies: nat, k: nat)
    requires copies >= 1 && k < |a| && k < |b| && a[k] == b[k] && IsPoolImage(raw, items, a, copies, k)
    ensures IsPoolImage(raw, items, b, copies, k)
  {
    hide IsImage;
  }

  lemma PrefixSums(sizes: seq<nat>, k: nat, j: nat)
    requires j <= k < |sizes|
    ensures Sum(sizes[..k + 1]) == Sum(sizes[..k]) + sizes[k]
    ensures Sum(sizes[..k + 1][..j]) == Sum(sizes[..j])
    ensures j < k ==> Sum(sizes[..k][..j]) == Sum(sizes[..j]) && Sum(sizes[..j]) + sizes[j] <= Sum(sizes[..k])
  {
    var sizes' := sizes[..k + 1];
    assert sizes'[..k] == sizes[..k] && sizes'[..j] == sizes[..j];
    SumParts(sizes', k);
    if j < k {
      assert sizes[..k][..j] == sizes[..j];
      SumParts(sizes[..k], j);
    }
  }

  lemma SliceInFront<T>(a: seq<T>, b: seq<T>, lo: nat, hi: nat)
    requires lo <= hi <= |a|
    ensures (a + b)[lo..hi] == a[lo..hi]
  {}

  lemma SliceOfAppended(raw: seq<Byte>, more: seq<Byte>, sizes: seq<nat>, k: nat, j: nat)
    requires j <= k < |sizes| && |raw| == Sum(sizes[..k]) * SECTOR_SIZE && |more| == sizes[k] * SECTOR_SIZE
    ensures Sum(sizes[..k + 1]) == Sum(sizes[..k]) + sizes[k]
    ensures PoolSlice(raw + more, sizes[..k + 1], j) == if j == k then more else PoolSlice(raw, sizes[..k], j)
  {
    hide Sum;
    PrefixSums(sizes, k, j);
    if j < k {
      var lo := Sum(sizes[..j]) * SECTOR_SIZE;
      SliceInFront(raw, more, lo, lo + sizes[j] * SECTOR_SIZE);
    }
  }

  // ---------- analysis ----------

  function AnalyzePools(raw: seq<Byte>, sizes: seq<nat>, k: nat): Result<seq<NvmItem>, ImageError>
    requires |raw| == Sum(sizes) * SECTOR_SIZE && k <= |sizes|
  {
    if k == 0 then Ok([])
    else
      match AnalyzePools(raw, sizes, k - 1)
      case Err(e) => Err(e)
      case Ok(items) =>
        match Analysis(PoolSlice(raw, sizes, k - 1), k - 1)
        case Err(_) => Err(Ambiguous(k - 1))
        case Ok(more) => Ok(items + more)
  }

  /** The whole analysis; without sector counts the file is one pool. */
  function ImageAnalysis(raw: seq<Byte>, counts: Option<seq<nat>>): Result<seq<NvmItem>, ImageError> {
    if |raw| % SECTOR_SIZE != 0 then Err(SizeNotWholeSectors)
    else
      var total := |raw| / SECTOR_SIZE;
      var sizes := if counts.Some? then counts.value else [total];
      if total != Sum(sizes) then Err(WrongSectorCount) else AnalyzePools(raw, sizes, |sizes|)
  }

  method AnalyzeImage(raw: seq<Byte>, counts: Option<seq<nat>>) returns (res: Result<seq<NvmItem>, ImageError>)
    ensures res == ImageAnalysis(raw, counts)
  {
    hide Analysis;
    if |raw| % SECTOR_SIZE != 0 {
      return Err(SizeNotWholeSectors);
    }
    var total := |raw| / SECTOR_SIZE;
    var sizes: seq<nat>;
    SumOne(total);
    if counts == None {
      sizes := [total];
    } else {
      sizes := counts.value;
      var sum := SumUp(sizes);
      if total != sum {
        return Err(WrongSectorCount);
      }
    }
    res := AnalyzeEach(raw, sizes);
  }

  method AnalyzeEach(raw: seq<Byte>, sizes: seq<nat>) returns (res: Result<seq<NvmItem>, ImageError>)
    requires |raw| == Sum(sizes) * SECTOR_SIZE
    ensures res == AnalyzePools(raw, sizes, |sizes|)
  {
    hide Analysis, Sum, PoolSlice;
    var items: seq<NvmItem> := [];
    var offs := 0;
    SumNone(sizes);
    for poolId := 0 to |sizes|
      invariant offs == Sum(sizes[..poolId]) * SECTOR_SIZE
      invariant AnalyzePools(raw, sizes, poolId) == Ok(items)
    {
      SumParts(sizes, poolId);
      PoolSliceIs(raw, sizes, poolId);
      var poolStart, poolEnd := offs, offs + sizes[poolId] * SECTOR_SIZE;
      var poolItems := AnalyzePool(raw[poolStart..poolEnd], poolId);
      if poolItems.Err? {
        ErrorStays(raw, sizes, poolId + 1, |sizes|);
        return Err(Ambiguous(poolId));
      }
      items := items + poolItems.value;
      offs := poolEnd;
    }
    res := Ok(items);
  }

  lemma {:induction false} OfPoolConcat(a: seq<NvmItem>, b: seq<NvmItem>, poolId: int)
    ensures OfPool(a + b, poolId) == OfPool(a, poolId) + OfPool(b, poolId)
    decreases |b|
  {
    if b == [] {
      assert a + b == a;
    } else {
      assert (a + b)[..|a + b| - 1] == a + b[..|b| - 1];
      OfPoolConcat(a, b[..|b| - 1], poolId);
    }
  }

  lemma {:induction false} OfPoolUniform(items: seq<NvmItem>, own: int, poolId: int)
    requires forall x :: x in items ==> x.poolId == own
    ensures OfPool(items, poolId) == if own == poolId then items else []
  {
    if items != [] {
      var init, last := items[..|items| - 1], items[|items| - 1];
      assert last in items;
      OfPoolUniform(init, own, poolId);
      assert items == init + [last];
    }
  }

  lemma AnalysedPool(raw: seq<Byte>, poolId: int, x: NvmItem)
    requires Analysis(raw, poolId).Ok? && x in Analysis(raw, poolId).value
    ensures x.poolId == poolId
  {
    hide Analysis;
    var k :| 0 <= k < |Analysis(raw, poolId).value| && Analysis(raw, poolId).value[k] == x;
    var p, g, at := Raw.ReturnedStandsInBytes(raw, poolId, k);
  }

  predicate Clear(raw: seq<Byte>, sizes: seq<nat>, k: nat)
    requires |raw| == Sum(sizes) * SECTOR_SIZE && k < |sizes|
  {
    Analysis(PoolSlice(raw, sizes, k), k).Ok?
  }

  /** The first k pools are analysed when each of them is; then the items of each are those of its own analysis, pool
      after pool. */
  lemma {:induction false} EachPoolIsAnalysed(raw: seq<Byte>, sizes: seq<nat>, k: nat)
    requires |raw| == Sum(sizes) * SECTOR_SIZE && k <= |sizes|
    ensures AnalyzePools(raw, sizes, k).Ok? <==> forall j :: 0 <= j < k ==> Clear(raw, sizes, j)
    ensures forall e :: AnalyzePools(raw, sizes, k) == Err(e) ==>
      e.Ambiguous? && e.poolId < k && !Clear(raw, sizes, e.poolId) &&
      forall j :: 0 <= j < e.poolId ==> Clear(raw, sizes, j)
    ensures AnalyzePools(raw, sizes, k).Ok? ==>
      var items := AnalyzePools(raw, sizes, k).value;
      && (forall j: nat :: j < k ==>
           (Clear(raw, sizes, j) && OfPool(items, j) == Analysis(PoolSlice(raw, sizes, j), j).value))
      && (forall x :: x in items ==> 0 <= x.poolId < k)
      && forall i, j :: 0 <= i < j < |items| ==> items[i].poolId <= items[j].poolId
  {
    hide Analysis, PoolSlice, OfPool;
    if k > 0 {
      EachPoolIsAnalysed(raw, sizes, k - 1);
      assert AnalyzePools(raw, sizes, k).Ok? <==>
        AnalyzePools(raw, sizes, k - 1).Ok? && Clear(raw, sizes, k - 1);
      if AnalyzePools(raw, sizes, k).Ok? {
        var before, more := AnalyzePools(raw, sizes, k - 1).value, Analysis(PoolSlice(raw, sizes, k - 1), k - 1).value;
        forall x | x in more ensures x.poolId == k - 1 {
          AnalysedPool(PoolSlice(raw, sizes, k - 1), k - 1, x);
        }
        forall j: nat | j < k
          ensures OfPool(before + more, j) == if j < k - 1 then OfPool(before, j) else more
        {
          OfPoolConcat(before, more, j);
          OfPoolUniform(more, k - 1, j);
          if j == k - 1 {
            NoneOfPool(before, j);
          }
        }
      }
    }
  }

  lemma NoneOfPool(items: seq<NvmItem>, poolId: int)
    requires forall x :: x in items ==> x.poolId < poolId
    ensures OfPool(items, poolId) == []
  {
    assert forall x :: x !in OfPool(items, poolId);
  }

  /** Analysis ends with an error for a file that is not made of whole sectors of 1024 bytes, for counts that do not add
      up to its sectors, and for the first pool whose numbers are ambiguous; otherwise every pool is analysed. */
  lemma WhenAnImageIsRefused(raw: seq<Byte>, counts: Option<seq<nat>>)
    ensures ImageAnalysis(raw, counts) == Err(SizeNotWholeSectors) <==> |raw| % 1024 != 0
    ensures ImageAnalysis(raw, counts) == Err(WrongSectorCount) <==>
      |raw| % 1024 == 0 && counts.Some? && Sum(counts.value) * 1024 != |raw|
    ensures ImageAnalysis(raw, counts).Ok? || ImageAnalysis(raw, counts).error.Ambiguous? ==>
      var sizes := if counts.Some? then counts.value else [|raw| / 1024];
      && |raw| == Sum(sizes) * 1024 && ImageAnalysis(raw, counts) == AnalyzePools(raw, sizes, |sizes|)
  {
    hide Analysis, Sum, PoolSlice;
    SumOne(|raw| / 1024);
    var sizes := if counts.Some? then counts.value else [|raw| / 1024];
    if |raw| == Sum(sizes) * 1024 {
      EachPoolIsAnalysed(raw, sizes, |sizes|);
    }
  }

  lemma PoolSliceIs(raw: seq<Byte>, sizes: seq<nat>, k: nat)
    requires k < |sizes| && |raw| == Sum(sizes) * SECTOR_SIZE
    ensures Sum(sizes[..k]) + sizes[k] <= Sum(sizes)
    ensures PoolSlice(raw, sizes, k) ==
      raw[Sum(sizes[..k]) * SECTOR_SIZE..Sum(sizes[..k]) * SECTOR_SIZE + sizes[k] * SECTOR_SIZE]
  {
    SumParts(sizes, k);
  }

  lemma SumNone(sizes: seq<nat>)
    ensures Sum(sizes[..0]) == 0
  {}

  lemma SumOne(n: nat)
    ensures Sum([n]) == n
  {
    assert [n][..0] == [];
  }

  method SumUp(sizes: seq<nat>) returns (sum: nat)
    ensures sum == Sum(sizes)
  {
    sum := 0;
    for k := 0 to |sizes|
      invariant sum == Sum(sizes[..k])
    {
      assert sizes[..k + 1][..k] == sizes[..k];
      sum := sum + sizes[k];
    }
    assert sizes[..|sizes|] == sizes;
  }

  lemma {:induction false} ErrorStays(raw: seq<Byte>, sizes: seq<nat>, j: nat, k: nat)
    requires |raw| == Sum(sizes) * SECTOR_SIZE && j <= k <= |sizes| && AnalyzePools(raw, sizes, j).Err?
    ensures AnalyzePools(raw, sizes, k) == AnalyzePools(raw, sizes, j)
    decreases k
  {
    if j < k {
      ErrorStays(raw, sizes, j, k - 1);
    }
  }

  // ---------- the round trip ----------

  /** Pool by pool, what each pool's image gives back. */
  function Recovered(items: seq<NvmItem>, k: nat): seq<NvmItem> {
    if k == 0 then [] else Recovered(items, k - 1) + Overwrite(Sorted(OfPool(items, k - 1)))
  }

  lemma {:induction false} PoolsRoundTrip(raw: seq<Byte>, items: seq<NvmItem>, sizes: seq<nat>, copies: nat, k: nat)
    requires copies >= 1 && IsToolImage(raw, items, sizes, copies) && k <= |sizes|
    ensures AnalyzePools(raw, sizes, k) == Ok(Recovered(items, k))
    decreases k
  {
    hide IsImage, Overwrite, Sorted, Analysis, PoolSlice, OfPool;
    if k > 0 {
      PoolsRoundTrip(raw, items, sizes, copies, k - 1);
      var slice := PoolSlice(raw, sizes, k - 1);
      assert IsPoolImage(slice, items, sizes, copies, k - 1);
      var mine := OfPool(items, k - 1);
      ImageRoundTrip(mine, slice, sizes[k - 1], copies, k - 1);
      OwnLabels(mine, k - 1);
    }
  }

  lemma OwnLabels(mine: seq<NvmItem>, poolId: int)
    requires forall x :: x in mine ==> x.poolId == poolId
    ensures Relabel(Sorted(mine), poolId) == Sorted(mine)
  {
    SortedMembers(mine);
    forall k | 0 <= k < |Sorted(mine)| ensures Sorted(mine)[k].poolId == poolId {
      assert Sorted(mine)[k] in Sorted(mine);
    }
  }

  /** Splitting a multi-pool image by its sector counts recovers every pool's own items, with its number. */
  lemma ImageOfPoolsRoundTrip(raw: seq<Byte>, items: seq<NvmItem>, sizes: seq<nat>, copies: nat)
    requires copies >= 1 && IsToolImage(raw, items, sizes, copies)
    ensures ImageAnalysis(raw, Some(sizes)) == Ok(Recovered(items, |sizes|))
    ensures |sizes| == 1 ==> ImageAnalysis(raw, None) == Ok(Recovered(items, 1))
  {
    hide IsToolImage, AnalyzePools, Recovered;
    assert |raw| == Sum(sizes) * SECTOR_SIZE by {
      ToolImageLength(raw, items, sizes, copies);
    }
    assert |raw| % SECTOR_SIZE == 0 && |raw| / SECTOR_SIZE == Sum(sizes);
    PoolsRoundTrip(raw, items, sizes, copies, |sizes|);
    if |sizes| == 1 {
      SumOne(sizes[0]);
      assert sizes == [sizes[0]];
    }
  }

  lemma ToolImageLength(raw: seq<Byte>, items: seq<NvmItem>, sizes: seq<nat>, copies: nat)
    requires copies >= 1 && IsToolImage(raw, items, sizes, copies)
    ensures |raw| == Sum(sizes) * SECTOR_SIZE
  {}

  lemma {:induction false} OfPoolDistinct(items: seq<NvmItem>, poolId: int)
    requires forall i, j :: 0 <= i < j < |items| ==>
      items[i].token != items[j].token || items[i].poolId != items[j].poolId
    ensures DistinctTokens(OfPool(items, poolId))
  {
    if items != [] {
      OfPoolDistinct(items[..|items| - 1], poolId);
    }
  }

  /** When no pool has a token twice, every item of a numbered pool comes back exactly, and nothing else. */
  lemma {:induction false} NothingLost(items: seq<NvmItem>, k: nat)
    requires forall i, j :: 0 <= i < j < |items| ==>
      items[i].token != items[j].token || items[i].poolId != items[j].poolId
    ensures forall x :: x in Recovered(items, k) <==> x in items && 0 <= x.poolId < k
  {
    hide OfPool, Overwrite, Sorted;
    if k > 0 {
      NothingLost(items, k - 1);
      PoolKeepsAll(items, k - 1);
    }
  }

  lemma PoolKeepsAll(items: seq<NvmItem>, k: nat)
    requires forall i, j :: 0 <= i < j < |items| ==>
      items[i].token != items[j].token || items[i].poolId != items[j].poolId
    ensures forall x :: x in Overwrite(Sorted(OfPool(items, k))) <==> x in items && x.poolId == k
  {
    hide OfPool, Overwrite, Sorted;
    OfPoolDistinct(items, k);
    SortedDistinct(OfPool(items, k), 0);
    SortedIsFromZero(OfPool(items, k));
    DistinctStay(Sorted(OfPool(items, k)));
    SortedMembers(OfPool(items, k));
  }
}
