/** What the analyser recovers from the images the generator writes, intact or damaged. */
module NvmRecovery {
  import opened Bytes
  import opened NvmFormat
  import opened NvmAnalysis
  import opened NvmNewest
  import opened NvmPlan
  import opened NvmImage
  import opened Results

  // ---------- the records of an image ----------

  /** Items as read back from the pool with this number. */
  function Relabel(items: seq<NvmItem>, poolId: int): (out: seq<NvmItem>)
    ensures |out| == |items|
    ensures forall k :: 0 <= k < |items| ==> out[k] == items[k].(poolId := poolId)
  {
    seq(|items|, k requires 0 <= k < |items| => items[k].(poolId := poolId))
  }

  lemma StoredNumbers(items: seq<NvmItem>, base: nat, poolId: int)
    requires base + |items| <= 65536
    ensures AllStored(Numbered(items, base), poolId) == Numbered(Relabel(items, poolId), base)
  {}

  lemma NumberedConcat(a: seq<NvmItem>, b: seq<NvmItem>, base: nat, poolId: int)
    ensures Numbered(Relabel(a + b, poolId), base) ==
            Numbered(Relabel(a, poolId), base) + Numbered(Relabel(b, poolId), base + |a|)
  {}

  lemma ScanRoundTrip(logical: Byte, s: Sector, base: nat, poolId: int)
    requires SectorHolds(s) && base + |SectorItems(s)| <= 65536
    ensures ScanSector(SectorBytes(logical, s, base), poolId) ==
            Valid(logical, Numbered(Relabel(SectorItems(s), poolId), base))
  {
    hide ParsePage, EncodeRecords, TotalCost, PageHolds;
    var bytes := SectorBytes(logical, s, base);
    var p0, p1 := ItemPage(logical, s.freq, s.first, base), ItemPage(logical, s.freq, s.second, base + |s.first|);
    assert PageOf(bytes, 0) == p0 && PageOf(bytes, 1) == p1;
    assert bytes[..4] == p0[..4] == p1[..4] == bytes[PAGE_SIZE..PAGE_SIZE + 4];
    ItemPageRoundTrip(logical, s.freq, s.first, base, poolId);
    ItemPageRoundTrip(logical, s.freq, s.second, base + |s.first|, poolId);
    NumberedConcat(s.first, s.second, base, poolId);
  }

  lemma ItemPageRoundTrip(logical: Byte, freq: Byte, page: seq<NvmItem>, base: nat, poolId: int)
    requires PageHolds(page, freq) && base + |page| <= 65536
    ensures ParsePage(ItemPage(logical, freq, page, base), poolId) == Some(Numbered(Relabel(page, poolId), base))
    ensures ItemPage(logical, freq, page, base)[..4] == [VALID_FLAG, logical, freq, 0]
  {
    hide ParsePage, EncodeRecords;
    NumberedCost(page, base);
    PageRoundTrip(logical, freq, Numbered(page, base), poolId);
    StoredNumbers(page, base, poolId);
  }

  /** The records of the first l logical sectors. */
  function Head(plan: seq<Sector>, l: nat, poolId: int): seq<Record>
    requires l <= |plan|
  {
    Numbered(Relabel(Flat(plan[..l]), poolId), 0)
  }

  lemma HeadStep(plan: seq<Sector>, l: nat, poolId: int)
    requires l < |plan|
    ensures Head(plan, l + 1, poolId) ==
      Head(plan, l, poolId) + Numbered(Relabel(SectorItems(plan[l]), poolId), Base(plan, l))
  {
    hide SectorItems;
    assert plan[..l + 1][..l] == plan[..l];
    NumberedConcat(Flat(plan[..l]), SectorItems(plan[l]), 0, poolId);
  }

  lemma {:induction false} FlatPrefix(plan: seq<Sector>, l: nat)
    requires l <= |plan|
    ensures |Flat(plan[..l])| <= |Flat(plan)|
  {
    assert plan == plan[..l] + plan[l..];
    FlatConcat(plan[..l], plan[l..]);
  }

  lemma {:induction false} HeadInWhole(plan: seq<Sector>, l: nat, m: nat, poolId: int)
    requires l <= m <= |plan|
    ensures forall r :: r in Head(plan, l, poolId) ==> r in Head(plan, m, poolId)
    decreases m - l
  {
    if l < m {
      HeadStep(plan, l, poolId);
      HeadInWhole(plan, l + 1, m, poolId);
    }
  }

  /** What the analyser reads from logical sector l. */
  function LogicalRecords(plan: seq<Sector>, l: nat, poolId: int): seq<Record>
    requires l < |plan|
  {
    Numbered(Relabel(SectorItems(plan[l]), poolId), Base(plan, l))
  }

  lemma LogicalScan(plan: seq<Sector>, l: nat, poolId: int)
    requires AllHold(plan) && |plan| <= 256 && l < |plan|
    ensures ScanSector(LogicalBytes(plan, l), poolId) == Valid(l, LogicalRecords(plan, l, poolId))
    ensures forall r :: r in LogicalRecords(plan, l, poolId) ==> r in Head(plan, |plan|, poolId)
  {
    hide SectorHolds, SectorBytes, SectorItems, ScanSector, Numbered;
    assert plan[l] in plan;
    PlanCapacity(plan);
    FlatPrefix(plan, l + 1);
    assert plan[..l + 1][..l] == plan[..l];
    assert |Flat(plan[..l + 1])| == Base(plan, l) + |SectorItems(plan[l])|;
    ScanRoundTrip(l, plan[l], Base(plan, l), poolId);
    HeadStep(plan, l, poolId);
    HeadInWhole(plan, l + 1, |plan|, poolId);
  }

  lemma UnusedScan(poolId: int)
    ensures ScanSector(Zeros(SECTOR_SIZE), poolId) == Unused
  {}

  /** Every copy of a logical sector yields that sector's records, every other physical sector none. */
  lemma PhysicalScan(plan: seq<Sector>, stride: nat, copies: nat, p: nat, poolId: int)
    requires AllHold(plan) && |plan| <= 256
    ensures RecordsOf(ScanSector(PhysicalBytes(plan, stride, copies, p), poolId)) ==
            if Used(p, |plan|, stride, copies) then LogicalRecords(plan, p % stride, poolId) else []
  {
    hide ScanSector, LogicalRecords, Head, LogicalBytes;
    UnusedScan(poolId);
    if Used(p, |plan|, stride, copies) {
      LogicalScan(plan, p % stride, poolId);
    }
  }

  /** In the records of the whole plan, and for a first copy those of its own sector. */
  lemma PhysicalInPlan(plan: seq<Sector>, stride: nat, copies: nat, p: nat, poolId: int)
    requires AllHold(plan) && |plan| <= 256
    ensures forall r :: r in RecordsOf(ScanSector(PhysicalBytes(plan, stride, copies, p), poolId)) ==>
      r in Head(plan, |plan|, poolId)
    ensures p < |plan| <= stride && stride * copies >= stride ==>
      RecordsOf(ScanSector(PhysicalBytes(plan, stride, copies, p), poolId)) == LogicalRecords(plan, p, poolId)
  {
    hide ScanSector, LogicalRecords, Head, LogicalBytes, PhysicalBytes;
    PhysicalScan(plan, stride, copies, p, poolId);
    if Used(p, |plan|, stride, copies) {
      LogicalScan(plan, p % stride, poolId);
    }
    if p < |plan| <= stride {
      StrideIndex(stride, p, 0, p);
    }
  }

  /** Reading an image sector by sector: first each logical sector once, then nothing new. */
  lemma {:induction false} ImageRecords(raw: seq<Byte>, plan: seq<Sector>, stride: nat, copies: nat, sectors: nat,
                                        p: nat, poolId: int)
    requires IsImage(raw, plan, stride, copies, sectors) && copies >= 1 && p <= sectors
    ensures var all := AllRecords(raw, p, poolId);
      && (p <= |plan| ==> all == Head(plan, p, poolId))
      && (p >= |plan| ==> Head(plan, |plan|, poolId) <= all)
      && (forall r :: r in all ==> r in Head(plan, |plan|, poolId))
    decreases p
  {
    hide SectorOf, PhysicalBytes, Head, ScanSector, AllHold, LogicalRecords;
    MulMonotone(stride, 1, copies);
    if p == 0 {
      HeadOfNothing(plan, poolId);
    } else {
      ImageRecords(raw, plan, stride, copies, sectors, p - 1, poolId);
      PhysicalInPlan(plan, stride, copies, p - 1, poolId);
      assert SectorOf(raw, p - 1) == PhysicalBytes(plan, stride, copies, p - 1);
      if p <= |plan| {
        HeadStepRecords(plan, p - 1, poolId);
      }
    }
  }

  lemma HeadOfNothing(plan: seq<Sector>, poolId: int)
    ensures Head(plan, 0, poolId) == []
  {}

  lemma HeadStepRecords(plan: seq<Sector>, l: nat, poolId: int)
    requires l < |plan|
    ensures Head(plan, l + 1, poolId) == Head(plan, l, poolId) + LogicalRecords(plan, l, poolId)
  {
    HeadStep(plan, l, poolId);
  }

  // ---------- no ambiguity on generated images ----------

  /** Numbers below 15872 are never read as wrapped, and never refused. */
  lemma LowNumbers(rs: seq<Record>)
    requires forall r :: r in rs ==> r.seqNo < 15872
    ensures !HasHigh(rs) && !Ambiguous(rs) && !Wrapping(rs)
  {
    forall k | 0 <= k < |rs| ensures !High(rs[k].seqNo) {
      assert rs[k] in rs;
    }
  }

  lemma WholeHead(plan: seq<Sector>, poolId: int)
    requires AllHold(plan) && |plan| <= 256
    ensures Head(plan, |plan|, poolId) == Numbered(Relabel(Flat(plan), poolId), 0)
    ensures forall r :: r in Head(plan, |plan|, poolId) ==> r.seqNo < 15872
    ensures DistinctNumbers(Head(plan, |plan|, poolId))
  {
    assert plan[..|plan|] == plan;
    PlanCapacity(plan);
  }

  /** Capacity rules ambiguity out: at most 256 sectors of 62 records each. The analyser meets the items in order, the
      k-th stored under the number k itself, and no number that is read as wrapped. */
  lemma ImagesAreUnambiguous(raw: seq<Byte>, plan: seq<Sector>, stride: nat, copies: nat, sectors: nat, poolId: int)
    requires IsImage(raw, plan, stride, copies, sectors) && copies >= 1
    ensures Analysis(raw, poolId).Ok? && !Wrapping(AllRecords(raw, sectors, poolId))
    ensures |Flat(plan)| <= 15872
    ensures Numbered(Relabel(Flat(plan), poolId), 0) <= AllRecords(raw, sectors, poolId)
    ensures forall r :: r in AllRecords(raw, sectors, poolId) ==> r in Numbered(Relabel(Flat(plan), poolId), 0)
  {
    hide IsImage, Head, Flat;
    ImageSize(raw, plan, stride, copies, sectors);
    ImageRecords(raw, plan, stride, copies, sectors, sectors, poolId);
    WholeHead(plan, poolId);
    LowNumbers(AllRecords(raw, sectors, poolId));
    PlanCapacity(plan);
  }

  lemma ImageSize(raw: seq<Byte>, plan: seq<Sector>, stride: nat, copies: nat, sectors: nat)
    requires IsImage(raw, plan, stride, copies, sectors) && copies >= 1
    ensures |raw| == sectors * SECTOR_SIZE && |raw| / SECTOR_SIZE == sectors && |plan| <= sectors
    ensures AllHold(plan) && |plan| <= 256
  {
    MulMonotone(stride, 1, copies);
  }

  // ---------- the round trip ----------

  function TokenIndex(dict: seq<NvmItem>, token: seq<Byte>): (k: Option<nat>)
    ensures k.Some? ==> k.value < |dict| && dict[k.value].token == token
    ensures k.None? ==> forall j :: 0 <= j < |dict| ==> dict[j].token != token
  {
    if dict == [] then None
    else if dict[|dict| - 1].token == token then Some(|dict| - 1)
    else TokenIndex(dict[..|dict| - 1], token)
  }

  /** An insertion-ordered dictionary filled from a list: a token keeps its first place and its last item. */
  function Overwrite(items: seq<NvmItem>): seq<NvmItem> {
    if items == [] then []
    else
      var before, last := Overwrite(items[..|items| - 1]), items[|items| - 1];
      match TokenIndex(before, last.token)
      case Some(k) => before[k := last]
      case None => before + [last]
  }

  lemma {:induction false} WinnersOverwrite(items: seq<NvmItem>)
    ensures Winners(Numbered(items, 0), false) == Overwrite(items)
  {
    hide Newest, Tokens;
    var rs := Numbered(items, 0);
    if items == [] {
      NoRecords();
    } else {
      var n := |items| - 1;
      var init, last := items[..n], items[n];
      var older := Numbered(init, 0);
      assert rs == older + [Record(n, last)];
      WinnersOverwrite(init);
      WinnerTokens(older, false);
      LastWins(older, Record(n, last));
      var dict := Overwrite(init);
      var tokens := Tokens(older);
      match TokenIndex(dict, last.token) {
        case Some(k) =>
          TokensDistinct(older);
          assert tokens[k] == last.token;
        case None =>
          forall j | 0 <= j < |tokens| ensures tokens[j] != last.token {
            assert dict[j].token == tokens[j];
          }
      }
    }
  }

  lemma LastWins(older: seq<Record>, last: Record)
    requires forall r :: r in older ==> r.seqNo < last.seqNo
    ensures Tokens(older + [last]) == if last.item.token in Tokens(older) then Tokens(older)
                                      else Tokens(older) + [last.item.token]
    ensures Newest(older + [last], false, last.item.token) == Some(last)
    ensures forall t :: t != last.item.token ==> Newest(older + [last], false, t) == Newest(older, false, t)
  {
    var rs := older + [last];
    assert rs[..|rs| - 1] == older;
    if last.item.token in Tokens(older) {
      var k := NewestWins(older, false, last.item.token);
      assert older[k] in older;
    } else {
      TokensHaveRecords(older, false, last.item.token);
    }
  }

  lemma {:induction false} DistinctStay(items: seq<NvmItem>)
    requires DistinctTokens(items)
    ensures Overwrite(items) == items
  {
    if items != [] {
      var init := items[..|items| - 1];
      DistinctStay(init);
      forall k | 0 <= k < |init| ensures init[k].token != items[|items| - 1].token {
        assert init[k] == items[k];
      }
    }
  }

  /** Analysing a generated image returns the sorted items, later items of a token replacing earlier ones. */
  lemma ImageRoundTrip(items: seq<NvmItem>, raw: seq<Byte>, sectors: nat, copies: nat, poolId: int)
    requires copies >= 1 && Plan(items, sectors / copies).Ok?
    requires IsImage(raw, Plan(items, sectors / copies).value, sectors / copies, copies, sectors)
    ensures Analysis(raw, poolId) == Ok(Overwrite(Relabel(Sorted(items), poolId)))
  {
    hide IsImage, Plan, Sorted, Relabel, Flat, Winners, AllRecords, Overwrite, Wrapping, Ambiguous;
    var stride := sectors / copies;
    var plan := Plan(items, stride).value;
    PlanIsPlacement(items, stride);
    ImageSize(raw, plan, stride, copies, sectors);
    ImagesAreUnambiguous(raw, plan, stride, copies, sectors, poolId);
    var read := Relabel(Sorted(items), poolId);
    NothingNewLater(Numbered(read, 0), AllRecords(raw, sectors, poolId), false);
    WinnersOverwrite(read);
  }

  /** With one item per token the very items come back, stably sorted by update frequency. */
  lemma ExactRoundTrip(items: seq<NvmItem>, raw: seq<Byte>, sectors: nat, copies: nat, poolId: int)
    requires copies >= 1 && Plan(items, sectors / copies).Ok?
    requires IsImage(raw, Plan(items, sectors / copies).value, sectors / copies, copies, sectors)
    requires forall x :: x in items ==> x.poolId == poolId
    requires DistinctTokens(items)
    ensures Analysis(raw, poolId) == Ok(Sorted(items))
  {
    hide IsImage, Plan, Sorted;
    ImageRoundTrip(items, raw, sectors, copies, poolId);
    SortedMembers(items);
    forall k | 0 <= k < |Sorted(items)| ensures Sorted(items)[k].poolId == poolId {
      assert Sorted(items)[k] in Sorted(items);
    }
    assert Relabel(Sorted(items), poolId) == Sorted(items);
    SortedDistinct(items, 0);
    assert DistinctTokens(Sorted(items)) by {
      SortedIsFromZero(items);
    }
    DistinctStay(Sorted(items));
  }

  lemma SortedIsFromZero(items: seq<NvmItem>)
    ensures Sorted(items) == SortedFrom(items, 0)
  {}

  // ---------- redundancy ----------

  /** In `damaged`, every sector is either as in `raw` or refused by the analyser. */
  ghost predicate DamageIsSeen(raw: seq<Byte>, damaged: seq<Byte>, sectors: nat, poolId: int)
    requires |raw| == |damaged| == sectors * SECTOR_SIZE
  {
    forall p :: 0 <= p < sectors ==>
      SectorOf(damaged, p) == SectorOf(raw, p) || !ScanSector(SectorOf(damaged, p), poolId).Valid?
  }

  /** Logical sector l keeps an untouched copy. */
  ghost predicate CopySurvives(raw: seq<Byte>, damaged: seq<Byte>, l: nat, stride: nat, copies: nat, sectors: nat)
    requires |raw| == |damaged| == sectors * SECTOR_SIZE
  {
    exists p :: 0 <= p < sectors && CopyOf(p, l, stride, copies) && SectorOf(damaged, p) == SectorOf(raw, p)
  }

  lemma {:induction false} RecordsOfSector(raw: seq<Byte>, n: nat, p: nat, poolId: int)
    requires n * SECTOR_SIZE <= |raw| && p < n
    ensures forall r :: r in RecordsOf(ScanSector(SectorOf(raw, p), poolId)) ==> r in AllRecords(raw, n, poolId)
  {
    hide ScanSector, SectorOf;
    if p < n - 1 {
      RecordsOfSector(raw, n - 1, p, poolId);
    }
  }

  /** Every valid sector keeps an untouched twin. */
  ghost predicate SectorsSurvive(raw: seq<Byte>, damaged: seq<Byte>, sectors: nat, poolId: int)
    requires |raw| == |damaged| == sectors * SECTOR_SIZE
  {
    forall p :: 0 <= p < sectors && ScanSector(SectorOf(raw, p), poolId).Valid? ==>
      TwinSurvives(raw, damaged, p, sectors)
  }

  ghost predicate TwinSurvives(raw: seq<Byte>, damaged: seq<Byte>, p: nat, sectors: nat)
    requires |raw| == |damaged| == sectors * SECTOR_SIZE && p < sectors
  {
    exists q :: 0 <= q < sectors && SectorOf(raw, q) == SectorOf(raw, p) == SectorOf(damaged, q)
  }

  lemma {:induction false} SeenRecordsAreOld(raw: seq<Byte>, damaged: seq<Byte>, sectors: nat, n: nat, poolId: int)
    requires |raw| == |damaged| == sectors * SECTOR_SIZE && DamageIsSeen(raw, damaged, sectors, poolId) && n <= sectors
    ensures forall r :: r in AllRecords(damaged, n, poolId) ==> r in AllRecords(raw, sectors, poolId)
    decreases n
  {
    hide SectorOf, ScanSector;
    if n > 0 {
      SeenRecordsAreOld(raw, damaged, sectors, n - 1, poolId);
      RecordsOfSector(raw, sectors, n - 1, poolId);
    }
  }

  lemma TwinOf(raw: seq<Byte>, damaged: seq<Byte>, sectors: nat, p: nat, poolId: int)
    requires |raw| == |damaged| == sectors * SECTOR_SIZE && SectorsSurvive(raw, damaged, sectors, poolId)
    requires p < sectors && ScanSector(SectorOf(raw, p), poolId).Valid?
    ensures TwinSurvives(raw, damaged, p, sectors)
  {
    hide SectorOf, ScanSector, TwinSurvives;
  }

  lemma {:induction false} OldRecordsSurvive(raw: seq<Byte>, damaged: seq<Byte>, sectors: nat, n: nat, poolId: int)
    requires |raw| == |damaged| == sectors * SECTOR_SIZE && n <= sectors
    requires SectorsSurvive(raw, damaged, sectors, poolId)
    ensures forall r :: r in AllRecords(raw, n, poolId) ==> r in AllRecords(damaged, sectors, poolId)
    decreases n
  {
    hide SectorOf, ScanSector, SectorsSurvive;
    if n > 0 {
      OldRecordsSurvive(raw, damaged, sectors, n - 1, poolId);
      if ScanSector(SectorOf(raw, n - 1), poolId).Valid? {
        TwinOf(raw, damaged, sectors, n - 1, poolId);
        var q :| 0 <= q < sectors && SectorOf(raw, q) == SectorOf(raw, n - 1) == SectorOf(damaged, q);
        RecordsOfSector(damaged, sectors, q, poolId);
      }
    }
  }

  /** Redundancy in any pool, written by the tool or by a device, its numbers wrapped or not: damage that the analyser
      sees changes nothing while every valid sector keeps an untouched twin. */
  lemma RedundancyMasksDamage(raw: seq<Byte>, damaged: seq<Byte>, sectors: nat, poolId: int)
    requires |raw| == |damaged| == sectors * SECTOR_SIZE
    requires DamageIsSeen(raw, damaged, sectors, poolId) && SectorsSurvive(raw, damaged, sectors, poolId)
    requires DistinctNumbers(AllRecords(raw, sectors, poolId)) && InRange(AllRecords(raw, sectors, poolId))
    ensures Analysis(damaged, poolId).Ok? <==> Analysis(raw, poolId).Ok?
    ensures Analysis(raw, poolId).Ok? ==> SameItems(Analysis(damaged, poolId).value, Analysis(raw, poolId).value)
  {
    hide DamageIsSeen, SectorsSurvive, Conclude, AllRecords;
    var all, some := AllRecords(raw, sectors, poolId), AllRecords(damaged, sectors, poolId);
    SeenRecordsAreOld(raw, damaged, sectors, sectors, poolId);
    OldRecordsSurvive(raw, damaged, sectors, sectors, poolId);
    ConclusionIsOrderFree(some, all);
  }

  lemma ImageSectorsSurvive(plan: seq<Sector>, raw: seq<Byte>, damaged: seq<Byte>,
                            stride: nat, copies: nat, sectors: nat, poolId: int)
    requires IsImage(raw, plan, stride, copies, sectors) && |damaged| == |raw|
    requires forall l :: 0 <= l < |plan| ==> CopySurvives(raw, damaged, l, stride, copies, sectors)
    ensures SectorsSurvive(raw, damaged, sectors, poolId)
  {
    hide SectorOf, AllHold, ScanSector, LogicalBytes;
    UnusedScan(poolId);
    forall p | 0 <= p < sectors && ScanSector(SectorOf(raw, p), poolId).Valid?
      ensures TwinSurvives(raw, damaged, p, sectors)
    {
      assert SectorOf(raw, p) == PhysicalBytes(plan, stride, copies, p);
      var l := p % stride;
      assert CopySurvives(raw, damaged, l, stride, copies, sectors);
      var q :| 0 <= q < sectors && CopyOf(q, l, stride, copies) && SectorOf(damaged, q) == SectorOf(raw, q);
      assert SectorOf(raw, q) == PhysicalBytes(plan, stride, copies, q);
    }
  }

  /** On generated images: the recovered token-to-item map does not change. */
  lemma DamageIsMasked(plan: seq<Sector>, raw: seq<Byte>, damaged: seq<Byte>,
                       stride: nat, copies: nat, sectors: nat, poolId: int)
    requires IsImage(raw, plan, stride, copies, sectors) && copies >= 1
    requires |damaged| == |raw| && DamageIsSeen(raw, damaged, sectors, poolId)
    requires forall l :: 0 <= l < |plan| ==> CopySurvives(raw, damaged, l, stride, copies, sectors)
    ensures Analysis(raw, poolId).Ok? && Analysis(damaged, poolId).Ok?
    ensures SameItems(Analysis(damaged, poolId).value, Analysis(raw, poolId).value)
  {
    hide CopySurvives, DamageIsSeen, SectorsSurvive, AllRecords, Analysis, PhysicalBytes, SectorOf, AllHold, Relabel;
    hide Flat;
    ImagesAreUnambiguous(raw, plan, stride, copies, sectors, poolId);
    ImageSectorsSurvive(plan, raw, damaged, stride, copies, sectors, poolId);
    RedundancyMasksDamage(raw, damaged, sectors, poolId);
  }
}
