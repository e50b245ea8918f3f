/** Where everything lies in a generated image: records, headers, copies, and nothing but zeros elsewhere. */
module NvmLayout {
  import opened Bytes
  import opened NvmFormat
  import opened NvmAnalysis
  import opened NvmPlan
  import opened NvmImage
  import opened Crc
  import Raw = NvmRaw

  // ---------- inside a page ----------

  /** Where record k of a page starts. */
  function Offset(rs: seq<Record>, k: nat): (at: nat)
    requires k <= |rs|
  {
    SECTOR_HEADER_SIZE + TotalCost(rs[..k])
  }

  lemma {:induction false} AlignedCost(rs: seq<Record>)
    ensures TotalCost(rs) % 16 == 0
  {
    hide Cost;
    if rs != [] {
      AlignedCost(rs[1..]);
    }
  }

  lemma {:induction false} EncodeSplit(rs: seq<Record>, k: nat)
    requires AllStorable(rs) && k <= |rs|
    ensures EncodeRecords(rs) == EncodeRecords(rs[..k]) + EncodeRecords(rs[k..])
    ensures TotalCost(rs) == TotalCost(rs[..k]) + TotalCost(rs[k..])
  {
    hide Padded, Cost;
    if k == 0 {
      assert rs[0..] == rs && rs[..0] == [];
      assert EncodeRecords([]) == [];
    } else {
      EncodeSplit(rs[1..], k - 1);
      assert rs[..k][1..] == rs[1..][..k - 1] && rs[1..][k - 1..] == rs[k..];
    }
  }

  /** Records lie behind the page header, in order, none overlapping the next, all inside the page. */
  lemma RecordPlacement(logical: Byte, freq: Byte, rs: seq<Record>, k: nat)
    requires PageFits(rs) && k < |rs|
    ensures Offset(rs, k) % 16 == 0
    ensures SECTOR_HEADER_SIZE <= Offset(rs, k) && Offset(rs, k) + Length(rs[k].item) <= Offset(rs, k + 1) <= PAGE_SIZE
    ensures Offset(rs, k + 1) < Offset(rs, k) + Length(rs[k].item) + 16
    ensures PageBytes(logical, freq, rs)[Offset(rs, k)..Offset(rs, k) + Length(rs[k].item)] == EncodeRecord(rs[k])
  {
    hide EncodeRecord, Padded, Cost, Length, PageHeader, EncodeRecords, TotalCost, PageBytes;
    AlignedCost(rs[..k]);
    EncodeSplit(rs, k);
    EncodeSplit(rs, k + 1);
    var head := rs[..k];
    assert rs[..k + 1] == head + [rs[k]];
    EncodeAppend(head, rs[k]);
    assert EncodeRecords(rs)[TotalCost(head)..TotalCost(rs[..k + 1])] == Padded(rs[k]);
    var bytes := PageBytes(logical, freq, rs);
    RecordBytes(logical, freq, rs);
    SliceOfSlice(bytes, SECTOR_HEADER_SIZE, SECTOR_HEADER_SIZE + TotalCost(rs),
                 TotalCost(head), TotalCost(rs[..k + 1]));
    SliceOfSlice(bytes, Offset(rs, k), Offset(rs, k + 1), 0, Length(rs[k].item));
    PaddedStart(rs[k]);
  }

  lemma RecordBytes(logical: Byte, freq: Byte, rs: seq<Record>)
    requires PageFits(rs)
    ensures PageBytes(logical, freq, rs)[SECTOR_HEADER_SIZE..SECTOR_HEADER_SIZE + TotalCost(rs)] == EncodeRecords(rs)
  {
    hide EncodeRecords, TotalCost, PageHeader;
  }

  lemma PaddedStart(r: Record)
    requires Storable(r.item)
    ensures Padded(r)[0..Length(r.item)] == EncodeRecord(r)
  {
    hide EncodeRecord;
  }

  lemma {:induction false} PaddingIsZero(rs: seq<Record>, b: nat)
    requires AllStorable(rs) && b < TotalCost(rs)
    requires forall k :: 0 <= k < |rs| ==> !(TotalCost(rs[..k]) <= b < TotalCost(rs[..k]) + Length(rs[k].item))
    ensures EncodeRecords(rs)[b] == 0
  {
    hide EncodeRecord, Cost, Length;
    assert TotalCost(rs[..0]) == 0;
    if b < Cost(rs[0].item) {
      assert b >= Length(rs[0].item);
    } else {
      var rest, c := rs[1..], Cost(rs[0].item);
      forall k | 0 <= k < |rest|
        ensures !(TotalCost(rest[..k]) <= b - c < TotalCost(rest[..k]) + Length(rest[k].item))
      {
        assert rs[..k + 1][1..] == rest[..k];
        assert TotalCost(rs[..k + 1]) == c + TotalCost(rest[..k]);
        assert rest[k] == rs[k + 1];
      }
      PaddingIsZero(rest, b - c);
    }
  }

  /** Every byte of a page outside the four header bytes and the records is 0. */
  lemma BlankOutsideRecords(logical: Byte, freq: Byte, rs: seq<Record>, b: nat)
    requires PageFits(rs) && 4 <= b < PAGE_SIZE
    requires forall k :: 0 <= k < |rs| ==> !(Offset(rs, k) <= b < Offset(rs, k) + Length(rs[k].item))
    ensures PageBytes(logical, freq, rs)[b] == 0
  {
    hide EncodeRecords, TotalCost, Length;
    if SECTOR_HEADER_SIZE <= b < SECTOR_HEADER_SIZE + TotalCost(rs) {
      forall k | 0 <= k < |rs|
        ensures !(TotalCost(rs[..k]) <= b - 16 < TotalCost(rs[..k]) + Length(rs[k].item))
      {
        assert Offset(rs, k) == 16 + TotalCost(rs[..k]);
      }
      PaddingIsZero(rs, b - 16);
    }
  }

  /** Copies of logical sectors are in range, and different (sector, copy) pairs never share a physical sector. */
  lemma ReplicasAreDisjoint(stride: nat, copies: nat, sectors: nat, l: nat, x: nat, m: nat, y: nat)
    requires l < stride && m < stride && x < copies && y < copies && stride * copies <= sectors
    ensures l + stride * x < sectors
    ensures l + stride * x == m + stride * y <==> l == m && x == y
  {
    CopiesInRange(l, stride, copies, x);
    SectorsAreApart(stride, l, x, m, y);
  }

  // ---------- in the whole image ----------

  /** A place in a plan: the logical sector, the page in it, the offset in the page. */
  datatype Place = Place(sector: nat, page: nat, at: nat)

  function ItemOffset(page: seq<NvmItem>, i: nat): nat
    requires i <= |page|
  {
    SECTOR_HEADER_SIZE + ItemsCost(page[..i])
  }

  function PageItems(s: Sector, g: nat): seq<NvmItem> { if g == 0 then s.first else s.second }

  /** The place of the k-th item. */
  function PlaceOf(plan: seq<Sector>, k: nat): (place: Place)
    requires k < |Flat(plan)|
    ensures place.sector < |plan| && place.page < PAGES_PER_SECTOR
  {
    var l := |plan| - 1;
    var i := k - |Flat(plan[..l])|;
    if i < 0 then PlaceOf(plan[..l], k)
    else if i < |plan[l].first| then Place(l, 0, ItemOffset(plan[l].first, i))
    else Place(l, 1, ItemOffset(plan[l].second, i - |plan[l].first|))
  }

  /** The number of the i-th item in page g of sector l. */
  function ItemNumber(plan: seq<Sector>, l: nat, g: nat, i: nat): nat
    requires l < |plan|
  {
    Base(plan, l) + (if g == 0 then 0 else |plan[l].first|) + i
  }

  /** The number of an item and its place tell the same. */
  lemma {:induction false} PlaceIs(plan: seq<Sector>, l: nat, g: nat, i: nat)
    requires l < |plan| && g < PAGES_PER_SECTOR && i < |PageItems(plan[l], g)|
    ensures var k := ItemNumber(plan, l, g, i);
      && k < |Flat(plan)| && Flat(plan)[k] == PageItems(plan[l], g)[i]
      && PlaceOf(plan, k) == Place(l, g, ItemOffset(PageItems(plan[l], g), i))
    decreases |plan|
  {
    var last := |plan| - 1;
    if l < last {
      assert plan[..last][..l] == plan[..l];
      PlaceIs(plan[..last], l, g, i);
    }
  }

  /** Every item is somewhere. */
  lemma {:induction false} ItemIsSomewhere(plan: seq<Sector>, k: nat) returns (l: nat, g: nat, i: nat)
    requires k < |Flat(plan)|
    ensures l < |plan| && g < PAGES_PER_SECTOR && i < |PageItems(plan[l], g)| && k == ItemNumber(plan, l, g, i)
    decreases |plan|
  {
    var last := |plan| - 1;
    var before := |Flat(plan[..last])|;
    if k < before {
      l, g, i := ItemIsSomewhere(plan[..last], k);
      assert plan[..last][..l] == plan[..l];
    } else if k - before < |plan[last].first| {
      l, g, i := last, 0, k - before;
    } else {
      l, g, i := last, 1, k - before - |plan[last].first|;
    }
  }

  /** The number of the first item in page g of sector l. */
  function PageBase(plan: seq<Sector>, l: nat, g: nat): nat
    requires l < |plan|
  {
    ItemNumber(plan, l, g, 0)
  }

  /** Where copy x of page g of logical sector l begins. */
  function PageStart(stride: nat, l: nat, g: nat, x: nat): nat {
    (l + stride * x) * SECTOR_SIZE + g * PAGE_SIZE
  }

  /** Where copy x of the k-th item's record begins. */
  function ItemStart(plan: seq<Sector>, stride: nat, k: nat, x: nat): nat
    requires k < |Flat(plan)|
  {
    PageStart(stride, PlaceOf(plan, k).sector, PlaceOf(plan, k).page, x) + PlaceOf(plan, k).at
  }

  lemma SectorPages(plan: seq<Sector>, l: nat, g: nat)
    requires AllHold(plan) && l < |plan| <= 256 && g < PAGES_PER_SECTOR
    ensures PageHolds(PageItems(plan[l], g), plan[l].freq)
    ensures LogicalBytes(plan, l)[g * PAGE_SIZE..g * PAGE_SIZE + PAGE_SIZE] ==
            ItemPage(l, plan[l].freq, PageItems(plan[l], g), PageBase(plan, l, g))
  {
    hide PageHolds, ItemPage;
    assert plan[l] in plan;
  }

  lemma SectorOfCopy(raw: seq<Byte>, plan: seq<Sector>, stride: nat, copies: nat, sectors: nat, l: nat, x: nat)
    requires IsImage(raw, plan, stride, copies, sectors) && l < |plan| && x < copies
    ensures l + stride * x < sectors && SectorOf(raw, l + stride * x) == LogicalBytes(plan, l)
  {
    hide SectorOf, LogicalBytes, AllHold;
    CopiesInRange(l, stride, copies, x);
    StrideIndex(stride, l, x, l + stride * x);
  }

  /** Each copy of a page of the plan stands in the image. */
  lemma PageOfCopy(raw: seq<Byte>, plan: seq<Sector>, stride: nat, copies: nat, sectors: nat, l: nat, g: nat, x: nat)
    requires IsImage(raw, plan, stride, copies, sectors) && l < |plan| && g < PAGES_PER_SECTOR && x < copies
    ensures PageHolds(PageItems(plan[l], g), plan[l].freq)
    ensures var at := PageStart(stride, l, g, x);
      && at + PAGE_SIZE <= |raw|
      && raw[at..at + PAGE_SIZE] == ItemPage(l, plan[l].freq, PageItems(plan[l], g), PageBase(plan, l, g))
  {
    hide LogicalBytes, PageHolds, ItemPage, PhysicalBytes, AllHold, PageItems, PageBase;
    SectorPages(plan, l, g);
    SectorOfCopy(raw, plan, stride, copies, sectors, l, x);
    var p := l + stride * x;
    SliceOfSlice(raw, p * SECTOR_SIZE, (p + 1) * SECTOR_SIZE, g * PAGE_SIZE, g * PAGE_SIZE + PAGE_SIZE);
  }

  /** Every item is stored, in every copy of its sector: its record, under its number in the sorted order, aligned,
      inside one page behind a header that carries its frequency. */
  lemma EveryItemIsStored(items: seq<NvmItem>, raw: seq<Byte>, sectors: nat, copies: nat, k: nat, x: nat)
    requires copies >= 1 && Plan(items, sectors / copies).Ok? && k < |Sorted(items)| && x < copies
    requires IsImage(raw, Plan(items, sectors / copies).value, sectors / copies, copies, sectors)
    ensures var plan, stride, it := Plan(items, sectors / copies).value, sectors / copies, Sorted(items)[k];
      && Flat(plan) == Sorted(items) && Storable(it)
      && var place := PlaceOf(plan, k);
      && SECTOR_HEADER_SIZE <= place.at && place.at % 16 == 0 && place.at + Length(it) <= PAGE_SIZE
      && var page, start := PageStart(stride, place.sector, place.page, x), ItemStart(plan, stride, k, x);
      && start == page + place.at && page + PAGE_SIZE <= |raw|
      && raw[page..page + 4] == [VALID_FLAG, place.sector, it.updateFreq, 0]
      && raw[start..start + Length(it)] == EncodeRecord(Record(k, it))
  {
    hide Plan, Flat, Sorted, IsImage, PlaceOf, EncodeRecord, PageStart, Length, ItemOffset, AllHold, PageItems;
    var stride := sectors / copies;
    var plan := Plan(items, stride).value;
    PlanIsPlacement(items, stride);
    var l, g, i := ItemIsSomewhere(plan, k);
    PlaceIs(plan, l, g, i);
    ItemOfCopy(raw, plan, stride, copies, sectors, l, g, i, x);
  }

  lemma PlanIsNumbered(raw: seq<Byte>, plan: seq<Sector>, stride: nat, copies: nat, sectors: nat)
    requires IsImage(raw, plan, stride, copies, sectors)
    ensures |plan| <= 256
  {}

  /** The record of the i-th item of a page in one copy of it. */
  lemma ItemOfCopy(raw: seq<Byte>, plan: seq<Sector>, stride: nat, copies: nat, sectors: nat,
                   l: nat, g: nat, i: nat, x: nat)
    requires IsImage(raw, plan, stride, copies, sectors)
    requires l < |plan| && g < PAGES_PER_SECTOR && i < |PageItems(plan[l], g)| && x < copies
    ensures var it, at, page := PageItems(plan[l], g)[i], ItemOffset(PageItems(plan[l], g), i), PageStart(stride, l, g, x);
      && Storable(it) && it.updateFreq == plan[l].freq && page + PAGE_SIZE <= |raw|
      && SECTOR_HEADER_SIZE <= at && at % 16 == 0 && at + Length(it) <= PAGE_SIZE
      && raw[page..page + 4] == [VALID_FLAG, l, it.updateFreq, 0]
      && raw[page + at..page + at + Length(it)] == EncodeRecord(Record(ItemNumber(plan, l, g, i), it))
  {
    hide IsImage, EncodeRecord, PageStart, Length, ItemOffset, AllHold, PageItems, ItemPage, PageHolds;
    hide LogicalBytes, PhysicalBytes, SectorOf, Base, TotalCost, ItemsCost, EncodeRecords;
    PlanIsNumbered(raw, plan, stride, copies, sectors);
    PageOfCopy(raw, plan, stride, copies, sectors, l, g, x);
    var page, base := PageItems(plan[l], g), PageBase(plan, l, g);
    ItemInPage(l, plan[l].freq, page, base, i);
    var at := PageStart(stride, l, g, x);
    SliceOfSlice(raw, at, at + PAGE_SIZE, 0, 4);
    SliceOfSlice(raw, at, at + PAGE_SIZE, ItemOffset(page, i), ItemOffset(page, i) + Length(page[i]));
  }

  /** An encoded record, byte by byte. */
  lemma EncodedBytes(r: Record)
    requires Storable(r.item)
    ensures var e, t := EncodeRecord(r), |r.item.token|;
      && |e| == 8 + t + |r.item.data|
      && e[2] == t && e[3] == 0 && e[4] == r.item.updateFreq && e[5] == |r.item.data|
      && Raw.RawTwo(e, 6) == r.seqNo % 65536 && e[8..8 + t] == r.item.token && e[8 + t..] == r.item.data
      && Raw.RawTwo(e, 0) == Crc16(e[2..])
  {
    hide Crc16;
    Le2RoundTrip(Crc16(Covered(r)));
    Le2RoundTrip(r.seqNo);
    assert EncodeRecord(r)[2..] == Covered(r);
  }

  /** The bytes from start on: a CRC of what follows it, the token's length, 0, the frequency, the data's length, the
      number, the token and the data. */
  predicate RecordStands(raw: seq<Byte>, start: nat, k: nat, it: NvmItem) {
    var t, d := |it.token|, |it.data|;
    && start + 8 + t + d <= |raw|
    && raw[start + 2] == t && raw[start + 3] == 0 && raw[start + 4] == it.updateFreq && raw[start + 5] == d
    && Raw.RawTwo(raw, start + 6) == k
    && raw[start + 8..start + 8 + t] == it.token && raw[start + 8 + t..start + 8 + t + d] == it.data
    && Raw.RawTwo(raw, start) == Crc16(raw[start + 2..start + 8 + t + d])
  }

  lemma EncodedStands(raw: seq<Byte>, start: nat, k: nat, it: NvmItem)
    requires Storable(it) && start + Length(it) <= |raw| && k < 65536
    requires raw[start..start + Length(it)] == EncodeRecord(Record(k, it))
    ensures RecordStands(raw, start, k, it)
  {
    hide Crc16, EncodeRecord;
    var e, n := EncodeRecord(Record(k, it)), Length(it);
    EncodedBytes(Record(k, it));
    assert raw[start] == e[0] && raw[start + 1] == e[1] && raw[start + 2] == e[2] && raw[start + 3] == e[3];
    assert raw[start + 4] == e[4] && raw[start + 5] == e[5] && raw[start + 6] == e[6] && raw[start + 7] == e[7];
    SliceOfSlice(raw, start, start + n, 2, n);
    SliceOfSlice(raw, start, start + n, 8, 8 + |it.token|);
    SliceOfSlice(raw, start, start + n, 8 + |it.token|, n);
  }

  /** What stands in the image for the k-th item in the sorted order: a page that begins with 0xC3, the logical sector,
      the item's frequency and 0, and in it, at a multiple of 16 from byte 16 on, the record with number k. */
  lemma ItemStandsInBytes(items: seq<NvmItem>, raw: seq<Byte>, sectors: nat, copies: nat, k: nat, x: nat)
    returns (page: nat, start: nat)
    requires copies >= 1 && Plan(items, sectors / copies).Ok? && k < |Sorted(items)| && x < copies
    requires IsImage(raw, Plan(items, sectors / copies).value, sectors / copies, copies, sectors)
    ensures var plan := Plan(items, sectors / copies).value;
      && k < |Flat(plan)| && start == ItemStart(plan, sectors / copies, k, x)
      && page / 1024 == PlaceOf(plan, k).sector + sectors / copies * x && page % 512 == 0 && page + 512 <= |raw|
      && raw[page] == 0xC3 && raw[page + 1] == PlaceOf(plan, k).sector
    ensures raw[page + 2] == Sorted(items)[k].updateFreq && raw[page + 3] == 0
    ensures page + 16 <= start && (start - page) % 16 == 0
    ensures start + 8 + |Sorted(items)[k].token| + |Sorted(items)[k].data| <= page + 512
    ensures RecordStands(raw, start, k, Sorted(items)[k])
  {
    hide Plan, Sorted, Flat, IsImage, EncodeRecord, PlaceOf, RecordStands, PageStart;
    EveryItemIsStored(items, raw, sectors, copies, k, x);
    ItemsFitOneByte(items, sectors / copies);
    SortedIsPermutation(items);
    var plan, stride, it := Plan(items, sectors / copies).value, sectors / copies, Sorted(items)[k];
    page, start := PageStart(stride, PlaceOf(plan, k).sector, PlaceOf(plan, k).page, x), ItemStart(plan, stride, k, x);
    PageIsIn(stride, PlaceOf(plan, k).sector, PlaceOf(plan, k).page, x);
    EncodedStands(raw, start, k, it);
    assert raw[page..page + 4][0] == raw[page] && raw[page..page + 4][1] == raw[page + 1];
    assert raw[page..page + 4][2] == raw[page + 2] && raw[page..page + 4][3] == raw[page + 3];
  }

  lemma PageIsIn(stride: nat, l: nat, g: nat, x: nat)
    requires g < PAGES_PER_SECTOR
    ensures PageStart(stride, l, g, x) / 1024 == l + stride * x && PageStart(stride, l, g, x) % 512 == 0
  {
    var p := l + stride * x;
    DivModUnique(p * 1024 + g * 512, 1024, p, g * 512);
    DivModUnique(p * 1024 + g * 512, 512, 2 * p + g, 0);
  }

  lemma {:induction false} NumberedOffset(page: seq<NvmItem>, base: nat, i: nat)
    requires i <= |page|
    ensures Offset(Numbered(page, base), i) == ItemOffset(page, i)
  {
    assert Numbered(page, base)[..i] == Numbered(page[..i], base);
    NumberedCost(page[..i], base);
  }

  lemma ItemInPage(logical: Byte, freq: Byte, page: seq<NvmItem>, base: nat, i: nat)
    requires PageHolds(page, freq) && i < |page|
    ensures page[i].updateFreq == freq && Storable(page[i])
    ensures var at, bytes := ItemOffset(page, i), ItemPage(logical, freq, page, base);
      && SECTOR_HEADER_SIZE <= at && at % 16 == 0 && at + Length(page[i]) <= PAGE_SIZE
      && bytes[..4] == [VALID_FLAG, logical, freq, 0]
      && bytes[at..at + Length(page[i])] == EncodeRecord(Record(base + i, page[i]))
  {
    hide EncodeRecord, Length, TotalCost, ItemsCost, EncodeRecords;
    var rs := Numbered(page, base);
    NumberedCost(page, base);
    NumberedOffset(page, base, i);
    NumberedOffset(page, base, i + 1);
    RecordPlacement(logical, freq, rs, i);
  }

  /** Records of one page do not overlap. */
  lemma ItemsAreDisjoint(plan: seq<Sector>, j: nat, k: nat)
    requires AllHold(plan) && j < k < |Flat(plan)|
    ensures var a, b := PlaceOf(plan, j), PlaceOf(plan, k);
      a.sector == b.sector && a.page == b.page ==> a.at + Length(Flat(plan)[j]) <= b.at
  {
    hide Flat, PlaceOf, Length, AllHold, ItemsCost;
    var l, g, i := ItemIsSomewhere(plan, j);
    var m, h, n := ItemIsSomewhere(plan, k);
    PlaceIs(plan, l, g, i);
    PlaceIs(plan, m, h, n);
    if l == m && g == h {
      CostsAddUp(PageItems(plan[l], g), i, n);
    }
  }

  lemma ItemFitsItsPage(plan: seq<Sector>, k: nat)
    requires AllHold(plan) && k < |Flat(plan)|
    ensures PlaceOf(plan, k).at + Length(Flat(plan)[k]) <= PAGE_SIZE
  {
    hide Flat, PlaceOf, Length, ItemsCost, PageHolds;
    var l, g, i := ItemIsSomewhere(plan, k);
    PlaceIs(plan, l, g, i);
    assert plan[l] in plan;
    ItemInPage(0, plan[l].freq, PageItems(plan[l], g), 0, i);
  }

  /** Pages of the image are the same or apart. */
  lemma PagesAreApart(stride: nat, l: nat, g: nat, x: nat, m: nat, h: nat, y: nat)
    requires l < stride && m < stride && g < PAGES_PER_SECTOR && h < PAGES_PER_SECTOR
    ensures var p, q := PageStart(stride, l, g, x), PageStart(stride, m, h, y);
      if l == m && g == h && x == y then p == q else p + PAGE_SIZE <= q || q + PAGE_SIZE <= p
  {
    SectorsAreApart(stride, l, x, m, y);
    if !(l == m && g == h && x == y) {
      PagesInSectors(l + stride * x, g, m + stride * y, h);
    }
  }

  lemma PagesInSectors(p: nat, g: nat, q: nat, h: nat)
    requires g < PAGES_PER_SECTOR && h < PAGES_PER_SECTOR && (p, g) != (q, h)
    ensures var a, b := p * SECTOR_SIZE + g * PAGE_SIZE, q * SECTOR_SIZE + h * PAGE_SIZE;
      a + PAGE_SIZE <= b || b + PAGE_SIZE <= a
  {}

  lemma SectorsAreApart(stride: nat, l: nat, x: nat, m: nat, y: nat)
    requires l < stride && m < stride
    ensures l + stride * x == m + stride * y <==> l == m && x == y
  {
    StrideIndex(stride, l, x, m + stride * y);
    StrideIndex(stride, m, y, l + stride * x);
    MulMonotone(stride, x, y);
    MulMonotone(stride, y, x);
  }

  /** In the whole image no two records overlap: not two items' and not two copies of one. */
  lemma RecordsAreDisjoint(plan: seq<Sector>, stride: nat, j: nat, x: nat, k: nat, y: nat)
    requires AllHold(plan) && |plan| <= stride && j < |Flat(plan)| && k < |Flat(plan)| && (j, x) != (k, y)
    ensures var a, b := ItemStart(plan, stride, j, x), ItemStart(plan, stride, k, y);
      a + Length(Flat(plan)[j]) <= b || b + Length(Flat(plan)[k]) <= a
  {
    hide Flat, PlaceOf, Length, AllHold, PageStart;
    var a, b := PlaceOf(plan, j), PlaceOf(plan, k);
    ItemFitsItsPage(plan, j);
    ItemFitsItsPage(plan, k);
    PagesAreApart(stride, a.sector, a.page, x, b.sector, b.page, y);
    if j < k {
      ItemsAreDisjoint(plan, j, k);
    } else if k < j {
      ItemsAreDisjoint(plan, k, j);
    }
  }

  lemma CostsAddUp(page: seq<NvmItem>, i: nat, n: nat)
    requires i < n <= |page|
    ensures ItemOffset(page, i) + Length(page[i]) <= ItemOffset(page, n)
  {
    hide Length, Cost;
    assert page[..n] == page[..i] + ([page[i]] + page[i + 1..n]);
    ItemsCostConcat(page[..i], [page[i]] + page[i + 1..n]);
    ItemsCostConcat([page[i]], page[i + 1..n]);
    CostCovers(page[i]);
  }

  lemma CostCovers(it: NvmItem)
    ensures Length(it) <= Cost(it) == ItemsCost([it])
  {
    assert [it][1..] == [];
  }

  /** Every byte outside the page headers of used sectors and outside the records is 0. */
  lemma NothingElse(raw: seq<Byte>, plan: seq<Sector>, stride: nat, copies: nat, sectors: nat, b: nat)
    requires IsImage(raw, plan, stride, copies, sectors) && b < |raw|
    requires Used(b / SECTOR_SIZE, |plan|, stride, copies) ==> b % PAGE_SIZE >= 4
    requires forall k, x :: 0 <= k < |Flat(plan)| && 0 <= x < copies ==>
      !(ItemStart(plan, stride, k, x) <= b < ItemStart(plan, stride, k, x) + Length(Flat(plan)[k]))
    ensures raw[b] == 0
  {
    hide Flat, ItemStart, Length, LogicalBytes, SectorOf, AllHold, PageStart;
    var p := b / SECTOR_SIZE;
    ByteOfSector(raw, p, b);
    assert SectorOf(raw, p) == PhysicalBytes(plan, stride, copies, p);
    if Used(p, |plan|, stride, copies) {
      BlankInSector(plan, stride, p % stride, CopyNumber(p, stride, copies), b);
    }
  }

  lemma BlankInSector(plan: seq<Sector>, stride: nat, l: nat, x: nat, b: nat)
    requires AllHold(plan) && l < |plan| <= 256 && b / SECTOR_SIZE == l + stride * x && b % PAGE_SIZE >= 4
    requires forall k :: 0 <= k < |Flat(plan)| ==>
      !(ItemStart(plan, stride, k, x) <= b < ItemStart(plan, stride, k, x) + Length(Flat(plan)[k]))
    ensures LogicalBytes(plan, l)[b % SECTOR_SIZE] == 0
  {
    hide Flat, ItemStart, Length, LogicalBytes, AllHold, PageHolds, ItemsCost, ItemPage, PlaceOf, PageStart, ItemOffset;
    hide PageItems, PageBase;
    var g, o := b % SECTOR_SIZE / PAGE_SIZE, b % PAGE_SIZE;
    var page, base := PageItems(plan[l], g), PageBase(plan, l, g);
    SectorPages(plan, l, g);
    InPage(stride, l, g, x, b);
    forall i | 0 <= i < |page| ensures !(ItemOffset(page, i) <= o < ItemOffset(page, i) + Length(page[i])) {
      PlaceIs(plan, l, g, i);
      ItemStartIs(plan, stride, l, g, i, x);
      var k := ItemNumber(plan, l, g, i);
      assert !(ItemStart(plan, stride, k, x) <= b < ItemStart(plan, stride, k, x) + Length(Flat(plan)[k]));
    }
    BlankInPage(l, plan[l].freq, page, base, o);
    assert LogicalBytes(plan, l)[g * PAGE_SIZE..g * PAGE_SIZE + PAGE_SIZE][o] == 0;
  }

  lemma InPage(stride: nat, l: nat, g: nat, x: nat, b: nat)
    requires b / SECTOR_SIZE == l + stride * x && g == b % SECTOR_SIZE / PAGE_SIZE
    ensures b == PageStart(stride, l, g, x) + b % PAGE_SIZE && b % SECTOR_SIZE == g * PAGE_SIZE + b % PAGE_SIZE
    ensures g < PAGES_PER_SECTOR
  {
    ByteInPage(b, b / SECTOR_SIZE, g, b % SECTOR_SIZE - g * PAGE_SIZE);
  }

  lemma ByteInPage(b: nat, p: nat, g: nat, o: nat)
    requires b == SECTOR_SIZE * p + PAGE_SIZE * g + o && g < PAGES_PER_SECTOR && o < PAGE_SIZE
    ensures b % PAGE_SIZE == o
  {
    assert b == PAGE_SIZE * (2 * p + g) + o;
    DivModUnique(b, PAGE_SIZE, 2 * p + g, o);
  }

  lemma ByteOfSector(raw: seq<Byte>, p: nat, b: nat)
    requires b < |raw| && p == b / SECTOR_SIZE && |raw| % SECTOR_SIZE == 0
    ensures (p + 1) * SECTOR_SIZE <= |raw| && raw[b] == SectorOf(raw, p)[b % SECTOR_SIZE]
  {}

  /** Which copy of its logical sector a physical sector holds. */
  function CopyNumber(p: nat, stride: nat, copies: nat): (x: nat)
    requires stride > 0 && p < stride * copies
    ensures x < copies && p == p % stride + stride * x
  {
    CopyIsInRange(p, stride, copies);
    p / stride
  }

  lemma CopyIsInRange(p: nat, stride: nat, copies: nat)
    requires stride > 0 && p < stride * copies
    ensures p / stride < copies && p == p % stride + stride * (p / stride)
  {
    if p / stride >= copies {
      MulMonotone(stride, copies, p / stride);
    }
  }

  lemma ItemStartIs(plan: seq<Sector>, stride: nat, l: nat, g: nat, i: nat, x: nat)
    requires l < |plan| && g < PAGES_PER_SECTOR && i < |PageItems(plan[l], g)|
    ensures ItemNumber(plan, l, g, i) < |Flat(plan)|
    ensures ItemStart(plan, stride, ItemNumber(plan, l, g, i), x) ==
            PageStart(stride, l, g, x) + ItemOffset(PageItems(plan[l], g), i)
  {
    hide Flat, PlaceOf, ItemsCost;
    PlaceIs(plan, l, g, i);
  }

  lemma BlankInPage(logical: Byte, freq: Byte, page: seq<NvmItem>, base: nat, o: nat)
    requires PageHolds(page, freq) && 4 <= o < PAGE_SIZE
    requires forall i :: 0 <= i < |page| ==> !(ItemOffset(page, i) <= o < ItemOffset(page, i) + Length(page[i]))
    ensures ItemPage(logical, freq, page, base)[o] == 0
  {
    hide Length, TotalCost, ItemsCost, EncodeRecords, Offset, ItemOffset;
    var rs := Numbered(page, base);
    NumberedCost(page, base);
    forall i | 0 <= i < |rs| ensures !(Offset(rs, i) <= o < Offset(rs, i) + Length(rs[i].item)) {
      NumberedOffset(page, base, i);
    }
    BlankOutsideRecords(logical, freq, rs, o);
  }
}
