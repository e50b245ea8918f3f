/** How the generator allots items to pages and sectors, and why no other allotment needs fewer sectors. */
module NvmPlan {
  import opened Bytes
  import opened NvmFormat
  import opened Results

  datatype GenerateError = NotEnoughSectors | InvalidItemSize | SectorIndexTooLarge

  /** The items of one logical sector: its first page and its second. */
  datatype Sector = Sector(freq: Byte, first: seq<NvmItem>, second: seq<NvmItem>)

  // ---------- grouping ----------

  function OfFreq(items: seq<NvmItem>, freq: int): (group: seq<NvmItem>)
    ensures forall k :: 0 <= k < |group| ==> group[k].updateFreq == freq
  {
    if items == [] then []
    else
      var init, last := OfFreq(items[..|items| - 1], freq), items[|items| - 1];
      if last.updateFreq == freq then init + [last] else init
  }

  /** The groups from freq on, in order of frequency. */
  function SortedFrom(items: seq<NvmItem>, freq: nat): seq<NvmItem>
    requires freq <= 256
    decreases 256 - freq
  {
    if freq == 256 then [] else OfFreq(items, freq) + SortedFrom(items, freq + 1)
  }

  function Sorted(items: seq<NvmItem>): seq<NvmItem> { SortedFrom(items, 0) }

  // ---------- greedy packing ----------

  predicate GoodSize(it: NvmItem) { Storable(it) && Length(it) < PAGE_SIZE }

  /** Index of the first item left over after filling a page from pos; None when an item's size is refused. */
  function FillPage(group: seq<NvmItem>, i: nat, pos: nat): (next: Option<nat>)
    requires i <= |group|
    ensures next.Some? ==> i <= next.value <= |group|
    decreases |group| - i
  {
    if i == |group| then Some(i)
    else if !GoodSize(group[i]) then None
    else if pos + Length(group[i]) > PAGE_SIZE then Some(i)
    else FillPage(group, i + 1, pos + Cost(group[i]))
  }

  /** Sectors for the items of one group from i on, the first of them at logical index next. */
  function PackGroup(freq: Byte, group: seq<NvmItem>, i: nat, next: nat, limit: nat): Result<seq<Sector>, GenerateError>
    requires i <= |group|
    decreases limit - next
  {
    if i == |group| then Ok([])
    else if next >= limit then Err(NotEnoughSectors)
    else if next > 255 then Err(SectorIndexTooLarge)
    else
      match FillPage(group, i, SECTOR_HEADER_SIZE)
      case None => Err(InvalidItemSize)
      case Some(j) =>
        match FillPage(group, j, SECTOR_HEADER_SIZE)
        case None => Err(InvalidItemSize)
        case Some(k) =>
          Prefixed([Sector(freq, group[i..j], group[j..k])], PackGroup(freq, group, k, next + 1, limit))
  }

  function Prefixed(done: seq<Sector>, more: Result<seq<Sector>, GenerateError>): Result<seq<Sector>, GenerateError> {
    match more
    case Err(e) => Err(e)
    case Ok(sectors) => Ok(done + sectors)
  }

  function PackFrom(items: seq<NvmItem>, freq: nat, next: nat, limit: nat): Result<seq<Sector>, GenerateError>
    requires freq <= 256
    decreases 256 - freq
  {
    if freq == 256 then Ok([])
    else
      match PackGroup(freq, OfFreq(items, freq), 0, next, limit)
      case Err(e) => Err(e)
      case Ok(sectors) => Prefixed(sectors, PackFrom(items, freq + 1, next + |sectors|, limit))
  }

  function Plan(items: seq<NvmItem>, limit: nat): Result<seq<Sector>, GenerateError> {
    PackFrom(items, 0, 0, limit)
  }

  // ---------- what a placement is ----------

  function ItemsCost(page: seq<NvmItem>): nat {
    if page == [] then 0 else Cost(page[0]) + ItemsCost(page[1..])
  }

  predicate PageHolds(page: seq<NvmItem>, freq: Byte) {
    && (forall k :: 0 <= k < |page| ==> Storable(page[k]) && page[k].updateFreq == freq)
    && SECTOR_HEADER_SIZE + ItemsCost(page) <= PAGE_SIZE
  }

  predicate SectorHolds(s: Sector) {
    PageHolds(s.first, s.freq) && PageHolds(s.second, s.freq)
  }

  predicate AllHold(plan: seq<Sector>) {
    forall s :: s in plan ==> SectorHolds(s)
  }

  function SectorItems(s: Sector): seq<NvmItem> { s.first + s.second }

  /** All items of a plan, in sector and page order. */
  function Flat(plan: seq<Sector>): seq<NvmItem> {
    if plan == [] then [] else Flat(plan[..|plan| - 1]) + SectorItems(plan[|plan| - 1])
  }

  function SectorsOf(plan: seq<Sector>, freq: int): (s: seq<Sector>)
    ensures forall x :: x in s ==> x in plan
  {
    if plan == [] then []
    else
      var init, last := SectorsOf(plan[..|plan| - 1], freq), plan[|plan| - 1];
      if last.freq == freq then init + [last] else init
  }

  /** Sectors of one frequency each that hold every group in its own order. */
  ghost predicate Placement(items: seq<NvmItem>, plan: seq<Sector>) {
    AllHold(plan) && forall freq: Byte :: Flat(SectorsOf(plan, freq)) == OfFreq(items, freq)
  }

  // ---------- the greedy plan is a placement ----------

  lemma FlatAppend(plan: seq<Sector>, s: Sector)
    ensures Flat(plan + [s]) == Flat(plan) + SectorItems(s)
  {
    hide SectorItems;
    assert (plan + [s])[..|plan|] == plan;
  }

  lemma {:induction false} FlatConcat(a: seq<Sector>, b: seq<Sector>)
    ensures Flat(a + b) == Flat(a) + Flat(b)
    decreases |b|
  {
    hide SectorItems, Flat;
    if b == [] {
      assert a + b == a;
      FlatEmpty();
    } else {
      var init, last := b[..|b| - 1], b[|b| - 1];
      FlatConcat(a, init);
      FlatAppend(init, last);
      FlatAppend(a + init, last);
      assert b == init + [last] && a + b == (a + init) + [last];
    }
  }

  lemma FlatOne(s: Sector)
    ensures Flat([s]) == SectorItems(s)
  {
    assert [s][..0] == [];
    assert Flat([s]) == Flat([s][..0]) + SectorItems(s);
  }

  lemma {:induction false} ItemsCostConcat(a: seq<NvmItem>, b: seq<NvmItem>)
    ensures ItemsCost(a + b) == ItemsCost(a) + ItemsCost(b)
  {
    if a == [] {
      assert a + b == b;
    } else {
      assert (a + b)[1..] == a[1..] + b;
      ItemsCostConcat(a[1..], b);
    }
  }

  lemma PaddingFits(pos: nat, it: NvmItem)
    requires pos % 16 == 0 && pos + Length(it) <= PAGE_SIZE
    ensures pos + Cost(it) <= PAGE_SIZE && (pos + Cost(it)) % 16 == 0
  {}

  lemma {:induction false} FilledPageHolds(freq: Byte, group: seq<NvmItem>, i: nat, pos: nat)
    requires i <= |group| && pos % 16 == 0 && pos <= PAGE_SIZE
    requires forall k :: 0 <= k < |group| ==> group[k].updateFreq == freq
    requires FillPage(group, i, pos).Some?
    ensures pos + ItemsCost(group[i..FillPage(group, i, pos).value]) <= PAGE_SIZE
    ensures forall k :: i <= k < FillPage(group, i, pos).value ==> Storable(group[k])
    decreases |group| - i
  {
    var j := FillPage(group, i, pos).value;
    if i < |group| && pos + Length(group[i]) <= PAGE_SIZE {
      PaddingFits(pos, group[i]);
      hide Cost;
      FilledPageHolds(freq, group, i + 1, pos + Cost(group[i]));
      assert group[i..j][1..] == group[i + 1..j];
    }
  }

  lemma {:induction false} GroupPlan(freq: Byte, group: seq<NvmItem>, i: nat, next: nat, limit: nat)
    requires i <= |group| && PackGroup(freq, group, i, next, limit).Ok?
    requires forall k :: 0 <= k < |group| ==> group[k].updateFreq == freq
    ensures var plan := PackGroup(freq, group, i, next, limit).value;
      && AllHold(plan) && Flat(plan) == group[i..]
      && (forall s :: s in plan ==> s.freq == freq)
      && (|plan| > 0 ==> next + |plan| <= limit && next + |plan| <= 256)
    decreases limit - next
  {
    hide FillPage, SectorHolds, Flat;
    var plan := PackGroup(freq, group, i, next, limit).value;
    if i == |group| {
      FlatEmpty();
    } else {
      var j := FillPage(group, i, SECTOR_HEADER_SIZE).value;
      var k := FillPage(group, j, SECTOR_HEADER_SIZE).value;
      var s := Sector(freq, group[i..j], group[j..k]);
      FilledSectorHolds(freq, group, i);
      GroupPlan(freq, group, k, next + 1, limit);
      var rest := PackGroup(freq, group, k, next + 1, limit).value;
      assert plan == [s] + rest;
      FlatOne(s);
      FlatConcat([s], rest);
      assert group[i..j] + group[j..k] + group[k..] == group[i..];
    }
  }

  lemma FlatEmpty()
    ensures Flat([]) == []
  {}

  lemma FilledSectorHolds(freq: Byte, group: seq<NvmItem>, i: nat)
    requires i <= |group|
    requires forall k :: 0 <= k < |group| ==> group[k].updateFreq == freq
    requires FillPage(group, i, SECTOR_HEADER_SIZE).Some?
    requires FillPage(group, FillPage(group, i, SECTOR_HEADER_SIZE).value, SECTOR_HEADER_SIZE).Some?
    ensures var j := FillPage(group, i, SECTOR_HEADER_SIZE).value;
      var k := FillPage(group, j, SECTOR_HEADER_SIZE).value;
      SectorHolds(Sector(freq, group[i..j], group[j..k]))
  {
    hide FillPage, ItemsCost;
    var j := FillPage(group, i, SECTOR_HEADER_SIZE).value;
    FilledPageHolds(freq, group, i, SECTOR_HEADER_SIZE);
    FilledPageHolds(freq, group, j, SECTOR_HEADER_SIZE);
  }

  lemma {:induction false} SectorsOfConcat(a: seq<Sector>, b: seq<Sector>, freq: int)
    ensures SectorsOf(a + b, freq) == SectorsOf(a, freq) + SectorsOf(b, freq)
    decreases |b|
  {
    if b == [] {
      assert a + b == a;
    } else {
      assert (a + b)[..|a + b| - 1] == a + b[..|b| - 1];
      SectorsOfConcat(a, b[..|b| - 1], freq);
    }
  }

  lemma {:induction false} SectorsOfUniform(plan: seq<Sector>, own: int, freq: int)
    requires forall s :: s in plan ==> s.freq == own
    ensures SectorsOf(plan, freq) == if own == freq then plan else []
  {
    if plan != [] {
      var init, last := plan[..|plan| - 1], plan[|plan| - 1];
      assert last in plan;
      SectorsOfUniform(init, own, freq);
      assert plan == init + [last];
    }
  }

  lemma {:induction false} PlanFrom(items: seq<NvmItem>, freq: nat, next: nat, limit: nat)
    requires freq <= 256 && PackFrom(items, freq, next, limit).Ok? && next <= limit && next <= 256
    ensures var plan := PackFrom(items, freq, next, limit).value;
      && AllHold(plan) && Flat(plan) == SortedFrom(items, freq)
      && next + |plan| <= limit && next + |plan| <= 256
    decreases 256 - freq
  {
    hide PackGroup, Flat, SectorHolds;
    if freq == 256 {
      FlatEmpty();
    } else {
      var group := OfFreq(items, freq);
      var mine := PackGroup(freq, group, 0, next, limit).value;
      GroupPlan(freq, group, 0, next, limit);
      PackGroupEmpty(freq, group, next, limit);
      assert group[0..] == group;
      PlanFrom(items, freq + 1, next + |mine|, limit);
      FlatConcat(mine, PackFrom(items, freq + 1, next + |mine|, limit).value);
    }
  }

  lemma PackGroupEmpty(freq: Byte, group: seq<NvmItem>, next: nat, limit: nat)
    ensures group == [] ==> PackGroup(freq, group, 0, next, limit) == Ok([])
  {}

  lemma {:induction false} PlanGroups(items: seq<NvmItem>, freq: nat, next: nat, limit: nat, f: Byte)
    requires freq <= 256 && PackFrom(items, freq, next, limit).Ok? && next <= limit && next <= 256
    ensures AllHold(PackFrom(items, freq, next, limit).value)
    ensures Flat(SectorsOf(PackFrom(items, freq, next, limit).value, f)) == if f < freq then [] else OfFreq(items, f)
    decreases 256 - freq
  {
    hide PackGroup, Flat, AllHold, OfFreq, SectorsOf;
    PlanFrom(items, freq, next, limit);
    SectorsOfNothing(f);
    if freq == 256 {
      FlatEmpty();
    } else {
      var group := OfFreq(items, freq);
      var mine := PackGroup(freq, group, 0, next, limit).value;
      var rest := PackFrom(items, freq + 1, next + |mine|, limit).value;
      GroupPlan(freq, group, 0, next, limit);
      assert group[0..] == group;
      PlanGroups(items, freq + 1, next + |mine|, limit, f);
      SectorsOfConcat(mine, rest, f);
      SectorsOfUniform(mine, freq, f);
      FlatConcat(SectorsOf(mine, f), SectorsOf(rest, f));
      FlatEmpty();
    }
  }

  lemma SectorsOfNothing(freq: int)
    ensures SectorsOf([], freq) == []
  {}

  /** A plan holds every item exactly once, sorted by frequency, and needs no more than the sectors there are. */
  lemma PlanIsPlacement(items: seq<NvmItem>, limit: nat)
    requires Plan(items, limit).Ok?
    ensures Placement(items, Plan(items, limit).value)
    ensures Flat(Plan(items, limit).value) == Sorted(items)
    ensures |Plan(items, limit).value| <= limit && |Plan(items, limit).value| <= 256
  {
    hide PackFrom, Flat, SectorHolds;
    PlanFrom(items, 0, 0, limit);
    forall f: Byte ensures Flat(SectorsOf(Plan(items, limit).value, f)) == OfFreq(items, f) {
      PlanGroups(items, 0, 0, limit, f);
    }
  }

  // ---------- and a smallest one ----------

  lemma {:induction false} FillReaches(group: seq<NvmItem>, i: nat, pos: nat, to: nat)
    requires i <= |group| && i <= to <= |group|
    requires forall k :: 0 <= k < |group| ==> GoodSize(group[k])
    requires pos + ItemsCost(group[i..to]) <= PAGE_SIZE
    ensures FillPage(group, i, pos).Some? && FillPage(group, i, pos).value >= to
    decreases |group| - i
  {
    hide Cost;
    if i < to {
      assert group[i..to][1..] == group[i + 1..to];
      FillReaches(group, i + 1, pos + Cost(group[i]), to);
    } else if i < |group| {
      FillTotal(group, i, pos);
    }
  }

  lemma {:induction false} FillTotal(group: seq<NvmItem>, i: nat, pos: nat)
    requires i <= |group| && forall k :: 0 <= k < |group| ==> GoodSize(group[k])
    ensures FillPage(group, i, pos).Some?
    decreases |group| - i
  {
    if i < |group| && pos + Length(group[i]) <= PAGE_SIZE {
      FillTotal(group, i + 1, pos + Cost(group[i]));
    }
  }

  /** A page filled greedily from i gets at least as far as any page that starts no later. */
  lemma FillStaysAhead(group: seq<NvmItem>, i: nat, from: nat, to: nat)
    requires from <= i <= |group| && from <= to <= |group|
    requires forall k :: 0 <= k < |group| ==> GoodSize(group[k])
    requires SECTOR_HEADER_SIZE + ItemsCost(group[from..to]) <= PAGE_SIZE
    ensures FillPage(group, i, SECTOR_HEADER_SIZE).Some? && FillPage(group, i, SECTOR_HEADER_SIZE).value >= to
  {
    if i <= to {
      assert group[from..to] == group[from..i] + group[i..to];
      ItemsCostConcat(group[from..i], group[i..to]);
      FillReaches(group, i, SECTOR_HEADER_SIZE, to);
    } else {
      FillTotal(group, i, SECTOR_HEADER_SIZE);
    }
  }

  lemma FlatHead(plan: seq<Sector>)
    requires plan != []
    ensures Flat(plan) == plan[0].first + plan[0].second + Flat(plan[1..])
  {
    FlatOne(plan[0]);
    FlatConcat([plan[0]], plan[1..]);
    assert plan == [plan[0]] + plan[1..];
  }

  /** Greedy packing from i needs no more sectors than any packing of the items from `from` <= i on. */
  lemma {:induction false} GroupStaysAhead(freq: Byte, group: seq<NvmItem>, i: nat, next: nat, limit: nat,
                                           other: seq<Sector>, from: nat)
    requires from <= i <= |group|
    requires forall k :: 0 <= k < |group| ==> GoodSize(group[k])
    requires AllHold(other) && Flat(other) == group[from..]
    requires next + |other| <= limit && next + |other| <= 256
    ensures PackGroup(freq, group, i, next, limit).Ok?
    ensures |PackGroup(freq, group, i, next, limit).value| <= |other|
    decreases |other|
  {
    hide FillPage, ItemsCost, Flat;
    if other == [] {
      FlatEmpty();
    }
    if i < |group| {
      if other == [] {
        assert false;
      }
      FlatHead(other);
      assert other[0] in other && SectorHolds(other[0]);
      var a, b := other[0].first, other[0].second;
      var mid, end := from + |a|, from + |a| + |b|;
      SplitTail(group, from, a, b, Flat(other[1..]));
      FillStaysAhead(group, i, from, mid);
      var j := FillPage(group, i, SECTOR_HEADER_SIZE).value;
      FillStaysAhead(group, j, mid, end);
      var k := FillPage(group, j, SECTOR_HEADER_SIZE).value;
      GroupStaysAhead(freq, group, k, next + 1, limit, other[1..], end);
    }
  }

  lemma SplitTail(s: seq<NvmItem>, from: nat, a: seq<NvmItem>, b: seq<NvmItem>, c: seq<NvmItem>)
    requires from <= |s| && s[from..] == a + b + c
    ensures from + |a| + |b| <= |s|
    ensures s[from..from + |a|] == a && s[from + |a|..from + |a| + |b|] == b && s[from + |a| + |b|..] == c
  {
    assert |s[from..]| == |a| + |b| + |c|;
    assert s == s[..from] + (a + b + c);
  }

  function CountFrom(plan: seq<Sector>, freq: nat): nat
    requires freq <= 256
    decreases 256 - freq
  {
    if freq == 256 then 0 else |SectorsOf(plan, freq)| + CountFrom(plan, freq + 1)
  }

  lemma {:induction false} CountAdd(plan: seq<Sector>, freq: nat)
    requires freq <= 256 && plan != []
    ensures CountFrom(plan, freq) ==
      CountFrom(plan[..|plan| - 1], freq) + (if plan[|plan| - 1].freq >= freq then 1 else 0)
    decreases 256 - freq
  {
    if freq < 256 {
      CountAdd(plan, freq + 1);
    }
  }

  lemma {:induction false} CountNone(freq: nat)
    requires freq <= 256
    ensures CountFrom([], freq) == 0
    decreases 256 - freq
  {
    if freq < 256 {
      CountNone(freq + 1);
    }
  }

  lemma {:induction false} CountAll(plan: seq<Sector>)
    ensures CountFrom(plan, 0) == |plan|
  {
    if plan == [] {
      CountNone(0);
    } else {
      CountAdd(plan, 0);
      CountAll(plan[..|plan| - 1]);
    }
  }

  lemma {:induction false} PackStaysAhead(items: seq<NvmItem>, freq: nat, next: nat, limit: nat, other: seq<Sector>)
    requires freq <= 256 && Placement(items, other)
    requires forall k :: 0 <= k < |items| ==> GoodSize(items[k])
    requires next + CountFrom(other, freq) <= limit && next + CountFrom(other, freq) <= 256
    ensures PackFrom(items, freq, next, limit).Ok?
    ensures |PackFrom(items, freq, next, limit).value| <= CountFrom(other, freq)
    decreases 256 - freq
  {
    hide PackGroup, Flat, GoodSize, SectorHolds;
    if freq < 256 {
      var group := OfFreq(items, freq);
      OfFreqMembers(items, freq);
      assert group[0..] == group;
      GroupStaysAhead(freq, group, 0, next, limit, SectorsOf(other, freq), 0);
      var mine := PackGroup(freq, group, 0, next, limit).value;
      PackStaysAhead(items, freq + 1, next + |mine|, limit, other);
    }
  }

  lemma {:induction false} OfFreqMembers(items: seq<NvmItem>, freq: int)
    ensures forall x :: x in OfFreq(items, freq) <==> x in items && x.updateFreq == freq
  {
    if items != [] {
      OfFreqMembers(items[..|items| - 1], freq);
    }
  }

  /** Whatever is in a placement fits a page. */
  lemma {:induction false} PlacedItemsFit(plan: seq<Sector>, x: NvmItem)
    requires AllHold(plan) && x in Flat(plan)
    ensures Storable(x) && SECTOR_HEADER_SIZE + Length(x) <= PAGE_SIZE
  {
    var init, last := plan[..|plan| - 1], plan[|plan| - 1];
    assert last in plan && SectorHolds(last);
    if x in last.first {
      CostOfOne(last.first, x);
    } else if x in last.second {
      CostOfOne(last.second, x);
    } else {
      PlacedItemsFit(init, x);
    }
  }

  lemma {:induction false} CostOfOne(page: seq<NvmItem>, x: NvmItem)
    requires x in page
    ensures ItemsCost(page) >= Cost(x)
  {
    hide Cost;
    if page[0] != x {
      CostOfOne(page[1..], x);
    }
  }

  lemma PlacementIsGood(items: seq<NvmItem>, plan: seq<Sector>, x: NvmItem)
    requires Placement(items, plan) && x in items
    ensures GoodSize(x)
  {
    hide Flat, SectorHolds;
    OfFreqMembers(items, x.updateFreq);
    assert x in Flat(SectorsOf(plan, x.updateFreq));
    PlacedItemsFit(SectorsOf(plan, x.updateFreq), x);
  }

  ghost predicate FitsSomehow(items: seq<NvmItem>, sectors: nat) {
    exists plan: seq<Sector> :: Placement(items, plan) && |plan| <= sectors
  }

  /** Greedy packing is optimal: it fails only when no placement at all fits the sectors there are. */
  lemma GreedyIsOptimal(items: seq<NvmItem>, limit: nat)
    ensures Plan(items, limit).Ok? <==> FitsSomehow(items, if limit <= 256 then limit else 256)
  {
    hide PackFrom, AllHold, Flat, Sorted, GoodSize;
    var sectors := if limit <= 256 then limit else 256;
    if Plan(items, limit).Ok? {
      PlanIsPlacement(items, limit);
      assert Placement(items, Plan(items, limit).value);
    }
    if FitsSomehow(items, sectors) {
      var other: seq<Sector> :| Placement(items, other) && |other| <= sectors;
      forall k | 0 <= k < |items| ensures GoodSize(items[k]) {
        PlacementIsGood(items, other, items[k]);
      }
      CountAll(other);
      PackStaysAhead(items, 0, 0, limit, other);
    }
  }

  // ---------- which error ----------

  /** Which failure means what: no sector left, a sector number beyond one byte, an item of a refused size. */
  ghost predicate Explained(e: GenerateError, items: seq<NvmItem>, limit: nat) {
    match e
    case NotEnoughSectors => limit <= 256
    case SectorIndexTooLarge => limit > 256
    case InvalidItemSize => exists x :: x in items && !GoodSize(x)
  }

  lemma {:induction false} FillError(group: seq<NvmItem>, i: nat, pos: nat)
    requires i <= |group| && FillPage(group, i, pos) == None
    ensures exists x :: x in group && !GoodSize(x)
    decreases |group| - i
  {
    hide GoodSize;
    if GoodSize(group[i]) {
      FillError(group, i + 1, pos + Cost(group[i]));
    } else {
      assert group[i] in group;
    }
  }

  lemma {:induction false} GroupError(freq: Byte, group: seq<NvmItem>, i: nat, next: nat, limit: nat)
    requires i <= |group| && next <= 256
    ensures match PackGroup(freq, group, i, next, limit)
      case Err(e) => Explained(e, group, limit)
      case Ok(sectors) => next + |sectors| <= 256
    decreases limit - next
  {
    hide FillPage, GoodSize;
    if i < |group| && next < limit && next <= 255 {
      var j := FillPage(group, i, SECTOR_HEADER_SIZE);
      if j == None {
        FillError(group, i, SECTOR_HEADER_SIZE);
      } else if FillPage(group, j.value, SECTOR_HEADER_SIZE) == None {
        FillError(group, j.value, SECTOR_HEADER_SIZE);
      } else {
        GroupError(freq, group, FillPage(group, j.value, SECTOR_HEADER_SIZE).value, next + 1, limit);
      }
    }
  }

  lemma {:induction false} PackError(items: seq<NvmItem>, freq: nat, next: nat, limit: nat)
    requires freq <= 256 && next <= 256 && PackFrom(items, freq, next, limit).Err?
    ensures Explained(PackFrom(items, freq, next, limit).error, items, limit)
    decreases 256 - freq
  {
    hide PackGroup, OfFreq, GoodSize;
    if freq < 256 {
      var group := OfFreq(items, freq);
      OfFreqMembers(items, freq);
      GroupError(freq, group, 0, next, limit);
      if PackGroup(freq, group, 0, next, limit).Ok? {
        PackError(items, freq + 1, next + |PackGroup(freq, group, 0, next, limit).value|, limit);
      }
    }
  }

  /** With item sizes in order the generator fails exactly when no placement fits the sectors it can number: for lack of
      sectors while one byte numbers them all, else because a number does not fit its byte. */
  lemma {:induction false} OnlySectorsRunOut(items: seq<NvmItem>, limit: nat)
    requires forall x :: x in items ==> GoodSize(x)
    ensures var fits := FitsSomehow(items, if limit <= 256 then limit else 256);
      && (Plan(items, limit) == Err(NotEnoughSectors) <==> !fits && limit <= 256)
      && (Plan(items, limit) == Err(SectorIndexTooLarge) <==> !fits && limit > 256)
      && Plan(items, limit) != Err(InvalidItemSize)
  {
    hide PackFrom, GoodSize, Placement;
    GreedyIsOptimal(items, limit);
    if Plan(items, limit).Err? {
      PackError(items, 0, 0, limit);
    }
  }

  /** An item of a legal size that fits no page (token and data of 489 to 503 bytes) always ends in that failure. */
  lemma OversizeRunsOut(items: seq<NvmItem>, limit: nat, it: NvmItem)
    requires forall x :: x in items ==> GoodSize(x)
    requires it in items && SECTOR_HEADER_SIZE + Length(it) > PAGE_SIZE
    ensures Plan(items, limit) == Err(if limit <= 256 then NotEnoughSectors else SectorIndexTooLarge)
  {
    hide Plan, Length, GoodSize;
    OnlySectorsRunOut(items, limit);
    var sectors := if limit <= 256 then limit else 256;
    if plan: seq<Sector> :| Placement(items, plan) && |plan| <= sectors {
      hide Flat, SectorHolds;
      OfFreqMembers(items, it.updateFreq);
      assert it in Flat(SectorsOf(plan, it.updateFreq));
      PlacedItemsFit(SectorsOf(plan, it.updateFreq), it);
      assert false;
    }
  }

  // ---------- the first item of a refused size ----------

  lemma GoodSizeIs(it: NvmItem)
    ensures GoodSize(it) <==> 0 < |it.token| < 256 && |it.data| < 256 && |it.token| + |it.data| < 504
  {}

  /** A page filled up to a refused item is refused, otherwise it is filled as if that were not there. */
  lemma {:induction false} FillRefuses(group: seq<NvmItem>, i: nat, pos: nat, b: nat)
    requires i <= b < |group| && !GoodSize(group[b]) && forall k :: 0 <= k < b ==> GoodSize(group[k])
    ensures var p := FillPage(group[..b], i, pos);
      p.Some? && FillPage(group, i, pos) == if p.value == b then None else p
    decreases b - i
  {
    hide GoodSize, Cost;
    if i < b && pos + Length(group[i]) <= PAGE_SIZE {
      FillRefuses(group, i + 1, pos + Cost(group[i]), b);
    }
  }

  lemma {:induction false} GroupRefuses(freq: Byte, group: seq<NvmItem>, i: nat, next: nat, limit: nat, b: nat)
    requires i <= b < |group| && !GoodSize(group[b]) && forall k :: 0 <= k < b ==> GoodSize(group[k])
    ensures PackGroup(freq, group, i, next, limit) == Err(InvalidItemSize) <==>
      if i < b then PackGroup(freq, group[..b], i, next, limit).Ok? else next < limit && next <= 255
    decreases limit - next
  {
    hide GoodSize, FillPage;
    if next < limit && next <= 255 {
      FillRefuses(group, i, SECTOR_HEADER_SIZE, b);
      var j := FillPage(group[..b], i, SECTOR_HEADER_SIZE).value;
      FillRefuses(group, j, SECTOR_HEADER_SIZE, b);
      var k := FillPage(group[..b], j, SECTOR_HEADER_SIZE).value;
      if k < b {
        GroupRefuses(freq, group, k, next + 1, limit, b);
      }
    }
  }

  lemma NothingAdded(mine: seq<Sector>)
    ensures Prefixed(mine, Ok([])) == Ok(mine)
  {
    assert mine + [] == mine;
  }

  lemma RefusedGroupFails(freq: Byte, group: seq<NvmItem>, next: nat, limit: nat, b: nat)
    requires b < |group| && !GoodSize(group[b]) && forall k :: 0 <= k < |group| ==> group[k].updateFreq == freq
    ensures PackGroup(freq, group, 0, next, limit).Err?
  {
    hide PackGroup, Flat, SectorHolds;
    if PackGroup(freq, group, 0, next, limit).Ok? {
      GroupPlan(freq, group, 0, next, limit);
      assert group[b] in group[0..];
      PlacedItemsFit(PackGroup(freq, group, 0, next, limit).value, group[b]);
      assert false;
    }
  }

  lemma {:induction false} PackNothing(items: seq<NvmItem>, freq: nat, next: nat, limit: nat)
    requires freq <= 256 && forall g :: freq <= g < 256 ==> OfFreq(items, g) == []
    ensures PackFrom(items, freq, next, limit) == Ok([])
    decreases 256 - freq
  {
    hide PackGroup, OfFreq;
    if freq < 256 {
      PackGroupEmpty(freq, OfFreq(items, freq), next, limit);
      PackNothing(items, freq + 1, next, limit);
      NothingAdded([]);
    }
  }

  /** The items before the c-th of frequency f. */
  ghost predicate Before(items: seq<NvmItem>, before: seq<NvmItem>, f: Byte, c: nat) {
    && c < |OfFreq(items, f)| && OfFreq(before, f) == OfFreq(items, f)[..c]
    && (forall g :: 0 <= g < f ==> OfFreq(before, g) == OfFreq(items, g))
    && forall g :: f < g < 256 ==> OfFreq(before, g) == []
  }

  /** The group of the refused item itself. */
  lemma OwnGroupRefuses(items: seq<NvmItem>, before: seq<NvmItem>, next: nat, limit: nat, f: Byte, c: nat)
    requires Before(items, before, f, c) && !GoodSize(OfFreq(items, f)[c])
    requires forall x :: x in OfFreq(before, f) ==> GoodSize(x)
    ensures PackFrom(items, f, next, limit) == Err(InvalidItemSize) <==>
      (if c > 0 then PackGroup(f, OfFreq(before, f), 0, next, limit).Ok? else next < limit && next <= 255)
    ensures PackFrom(before, f, next, limit) == PackGroup(f, OfFreq(before, f), 0, next, limit)
    ensures c == 0 ==> PackFrom(before, f, next, limit) == Ok([])
  {
    hide GoodSize, OfFreq, PackGroup;
    var all, group := OfFreq(items, f), OfFreq(before, f);
    forall k | 0 <= k < c ensures GoodSize(all[k]) {
      assert all[k] == group[k];
    }
    RefusedGroupFails(f, all, next, limit, c);
    GroupRefuses(f, all, 0, next, limit, c);
    PackGroupEmpty(f, group, next, limit);
    if PackGroup(f, group, 0, next, limit).Ok? {
      PackNothing(before, f + 1, next + |PackGroup(f, group, 0, next, limit).value|, limit);
      NothingAdded(PackGroup(f, group, 0, next, limit).value);
    }
  }

  lemma PackStep(items: seq<NvmItem>, freq: nat, next: nat, limit: nat)
    requires freq < 256
    ensures var own := PackGroup(freq, OfFreq(items, freq), 0, next, limit);
      PackFrom(items, freq, next, limit) ==
      if own.Err? then own else Prefixed(own.value, PackFrom(items, freq + 1, next + |own.value|, limit))
  {
    hide OfFreq, PackGroup;
  }

  lemma SameBefore(items: seq<NvmItem>, before: seq<NvmItem>, freq: nat, f: Byte, c: nat)
    requires Before(items, before, f, c)
    ensures freq < f ==> OfFreq(before, freq) == OfFreq(items, freq)
  {
    hide OfFreq;
  }

  lemma {:induction false} PackRefuses(items: seq<NvmItem>, before: seq<NvmItem>, freq: nat, next: nat, limit: nat,
                                       f: Byte, c: nat)
    requires freq <= f && Before(items, before, f, c) && !GoodSize(OfFreq(items, f)[c]) && next <= 256
    requires forall x :: x in before ==> GoodSize(x)
    ensures PackFrom(items, freq, next, limit) == Err(InvalidItemSize) <==>
      (var plan := PackFrom(before, freq, next, limit);
       plan.Ok? && (c == 0 ==> next + |plan.value| < limit && next + |plan.value| <= 255))
    decreases f - freq
  {
    hide GoodSize, OfFreq, PackGroup, PackFrom, Before;
    var group := OfFreq(before, freq);
    SameBefore(items, before, freq, f, c);
    PackStep(items, freq, next, limit);
    PackStep(before, freq, next, limit);
    OfFreqMembers(before, freq);
    GroupError(freq, group, 0, next, limit);
    if freq == f {
      OwnGroupRefuses(items, before, next, limit, f, c);
    } else if PackGroup(freq, group, 0, next, limit).Ok? {
      PackRefuses(items, before, freq + 1, next + |PackGroup(freq, group, 0, next, limit).value|, limit, f, c);
    }
  }

  /** The b-th item begins its frequency in the sorted order. */
  predicate Begins(sorted: seq<NvmItem>, b: nat)
    requires b < |sorted|
  {
    b == 0 || sorted[b - 1].updateFreq != sorted[b].updateFreq
  }

  lemma BeforeInOrder(items: seq<NvmItem>, b: nat) returns (c: nat)
    requires b < |Sorted(items)|
    ensures var s := Sorted(items);
      && Before(items, s[..b], s[b].updateFreq, c) && OfFreq(items, s[b].updateFreq)[c] == s[b]
      && (c == 0 <==> Begins(s, b))
  {
    hide Sorted, OfFreq;
    SortedIsStable(items);
    var s := Sorted(items);
    var f := s[b].updateFreq;
    c := |OfFreq(s[..b], f)|;
    forall g: Byte
      ensures OfFreq(items, g) == OfFreq(s[..b], g) + (if g == f then [s[b]] else []) + OfFreq(s[b + 1..], g)
      ensures g < f ==> OfFreq(s[b + 1..], g) == []
      ensures g > f ==> OfFreq(s[..b], g) == []
    {
      assert s == s[..b] + [s[b]] + s[b + 1..];
      OfFreqConcat(s[..b], [s[b]], g);
      OfFreqConcat(s[..b] + [s[b]], s[b + 1..], g);
      OfFreqUniform([s[b]], f, g);
      OfFreqMembers(s[b + 1..], g);
      OfFreqMembers(s[..b], g);
      if g < f {
        NothingOf(s[b + 1..], g);
      } else if g > f {
        NothingOf(s[..b], g);
      }
    }
    OfFreqMembers(s[..b], f);
    if b > 0 && s[b - 1].updateFreq == f {
      assert s[..b][b - 1] in s[..b];
      assert s[b - 1] in OfFreq(s[..b], f);
    }
    if c > 0 {
      assert OfFreq(s[..b], f)[0] in s[..b];
    }
  }

  lemma {:induction false} NothingOf(items: seq<NvmItem>, freq: int)
    requires forall k :: 0 <= k < |items| ==> items[k].updateFreq != freq
    ensures OfFreq(items, freq) == []
  {
    if items != [] {
      NothingOf(items[..|items| - 1], freq);
    }
  }

  /** When sizes are not in order: the first item of a refused size, in the sorted order, is refused exactly when those
      before it can be placed, with a sector to spare if it begins a frequency. Otherwise sectors run out first. */
  lemma WhenAnItemIsRefused(items: seq<NvmItem>, limit: nat, b: nat)
    requires b < |Sorted(items)| && !GoodSize(Sorted(items)[b])
    requires forall k :: 0 <= k < b ==> GoodSize(Sorted(items)[k])
    ensures var room := (if limit <= 256 then limit else 256) - if Begins(Sorted(items), b) then 1 else 0;
      Plan(items, limit) ==
      if room >= 0 && FitsSomehow(Sorted(items)[..b], room) then Err(InvalidItemSize)
      else if limit <= 256 then Err(NotEnoughSectors) else Err(SectorIndexTooLarge)
  {
    hide GoodSize, Sorted, OfFreq, FitsSomehow, PackFrom;
    var before := Sorted(items)[..b];
    var c := BeforeInOrder(items, b);
    hide Before, Begins;
    PackRefuses(items, before, 0, 0, limit, Sorted(items)[b].updateFreq, c);
    GreedyIsOptimal(before, limit);
    GreedyLeavesOne(before, limit);
    BadItemsFail(items, limit, b);
    if Plan(items, limit).Err? {
      PackError(items, 0, 0, limit);
    }
  }

  lemma BadItemsFail(items: seq<NvmItem>, limit: nat, b: nat)
    requires b < |Sorted(items)| && !GoodSize(Sorted(items)[b])
    ensures Plan(items, limit).Err?
  {
    hide Sorted, GoodSize, Plan, Placement;
    GreedyIsOptimal(items, limit);
    SortedMembers(items);
    if Plan(items, limit).Ok? {
      PlanIsPlacement(items, limit);
      PlacementIsGood(items, Plan(items, limit).value, Sorted(items)[b]);
    }
  }

  /** A plan leaves a sector that can be numbered exactly when some placement does. */
  lemma GreedyLeavesOne(items: seq<NvmItem>, limit: nat)
    ensures var cap := if limit <= 256 then limit else 256;
      Plan(items, limit).Ok? && |Plan(items, limit).value| < limit && |Plan(items, limit).value| <= 255 <==>
      cap >= 1 && FitsSomehow(items, cap - 1)
  {
    hide PackFrom, AllHold, Flat, Sorted, GoodSize;
    var cap := if limit <= 256 then limit else 256;
    if Plan(items, limit).Ok? {
      PlanIsPlacement(items, limit);
      assert Placement(items, Plan(items, limit).value);
    }
    if cap >= 1 && FitsSomehow(items, cap - 1) {
      var other: seq<Sector> :| Placement(items, other) && |other| <= cap - 1;
      forall k | 0 <= k < |items| ensures GoodSize(items[k]) {
        PlacementIsGood(items, other, items[k]);
      }
      CountAll(other);
      PackStaysAhead(items, 0, 0, limit, other);
    }
  }

  // ---------- capacity ----------

  lemma {:induction false} PageCapacity(page: seq<NvmItem>)
    requires forall k :: 0 <= k < |page| ==> Storable(page[k])
    ensures 16 * |page| <= ItemsCost(page)
  {
    if page != [] {
      assert Cost(page[0]) >= 16;
      hide Cost;
      PageCapacity(page[1..]);
    }
  }

  /** A page holds at most 31 records, so a plan of n sectors at most 62 n items. */
  lemma {:induction false} PlanCapacity(plan: seq<Sector>)
    requires AllHold(plan)
    ensures forall s :: s in plan ==> |s.first| <= 31 && |s.second| <= 31
    ensures |Flat(plan)| <= 62 * |plan|
  {
    if plan != [] {
      assert plan == plan[..|plan| - 1] + [plan[|plan| - 1]];
      assert plan[|plan| - 1] in plan;
      PlanCapacity(plan[..|plan| - 1]);
      PageCapacity(plan[|plan| - 1].first);
      PageCapacity(plan[|plan| - 1].second);
    }
  }

  // ---------- Sorted is the stable sort ----------

  lemma {:induction false} OfFreqConcat(a: seq<NvmItem>, b: seq<NvmItem>, freq: int)
    ensures OfFreq(a + b, freq) == OfFreq(a, freq) + OfFreq(b, freq)
    decreases |b|
  {
    if b == [] {
      assert a + b == a;
    } else {
      assert (a + b)[..|a + b| - 1] == a + b[..|b| - 1];
      OfFreqConcat(a, b[..|b| - 1], freq);
    }
  }

  lemma {:induction false} OfFreqUniform(group: seq<NvmItem>, own: int, freq: int)
    requires forall k :: 0 <= k < |group| ==> group[k].updateFreq == own
    ensures OfFreq(group, freq) == if own == freq then group else []
  {
    if group != [] {
      OfFreqUniform(group[..|group| - 1], own, freq);
    }
  }

  lemma {:induction false} SortedFromGroups(items: seq<NvmItem>, from: nat, freq: Byte)
    requires from <= 256
    ensures OfFreq(SortedFrom(items, from), freq) == if freq < from then [] else OfFreq(items, freq)
    ensures forall k :: 0 <= k < |SortedFrom(items, from)| ==> SortedFrom(items, from)[k].updateFreq >= from
    ensures forall i, j :: 0 <= i < j < |SortedFrom(items, from)| ==>
      SortedFrom(items, from)[i].updateFreq <= SortedFrom(items, from)[j].updateFreq
    decreases 256 - from
  {
    OfFreqNothing(freq);
    hide OfFreq;
    if from < 256 {
      var group, rest := OfFreq(items, from), SortedFrom(items, from + 1);
      SortedFromGroups(items, from + 1, freq);
      OfFreqConcat(group, rest, freq);
      OfFreqUniform(group, from, freq);
    }
  }

  lemma OfFreqNothing(freq: int)
    ensures OfFreq([], freq) == []
  {}

  /** Sorted by frequency, and within each frequency the same items in the same order. */
  lemma SortedIsStable(items: seq<NvmItem>)
    ensures forall i, j :: 0 <= i < j < |Sorted(items)| ==> Sorted(items)[i].updateFreq <= Sorted(items)[j].updateFreq
    ensures forall freq: Byte :: OfFreq(Sorted(items), freq) == OfFreq(items, freq)
  {
    forall freq: Byte ensures OfFreq(Sorted(items), freq) == OfFreq(items, freq) {
      SortedFromGroups(items, 0, freq);
    }
    SortedFromGroups(items, 0, 0);
  }

  /** Sorting only permutes. */
  lemma {:induction false} SortedIsPermutation(items: seq<NvmItem>)
    ensures multiset(Sorted(items)) == multiset(items)
    ensures |Sorted(items)| == |items|
  {
    hide SortedFrom;
    if items == [] {
      SortedNothing(0);
    } else {
      var init, last := items[..|items| - 1], items[|items| - 1];
      SortedIsPermutation(init);
      assert items == init + [last];
      OneMoreSorted(init, last, 0);
    }
    assert |multiset(Sorted(items))| == |multiset(items)|;
  }

  lemma {:induction false} SortedNothing(freq: nat)
    requires freq <= 256
    ensures SortedFrom([], freq) == []
    decreases 256 - freq
  {
    if freq < 256 {
      SortedNothing(freq + 1);
    }
  }

  lemma {:induction false} OneMoreSorted(init: seq<NvmItem>, last: NvmItem, freq: nat)
    requires freq <= 256
    ensures multiset(SortedFrom(init + [last], freq)) ==
            multiset(SortedFrom(init, freq)) + if last.updateFreq >= freq then multiset{last} else multiset{}
    decreases 256 - freq
  {
    hide OfFreq, SortedFrom;
    if freq < 256 {
      OneMoreSorted(init, last, freq + 1);
      OneMoreOfFreq(init, last, freq);
      SortedStep(init, freq);
      SortedStep(init + [last], freq);
    } else {
      NoMoreGroups(init);
      NoMoreGroups(init + [last]);
    }
  }

  lemma NoMoreGroups(items: seq<NvmItem>)
    ensures SortedFrom(items, 256) == []
  {}

  lemma OneMoreOfFreq(init: seq<NvmItem>, last: NvmItem, freq: nat)
    ensures multiset(OfFreq(init + [last], freq)) ==
            multiset(OfFreq(init, freq)) + if last.updateFreq == freq then multiset{last} else multiset{}
  {
    assert (init + [last])[..|init|] == init;
  }

  lemma SortedStep(items: seq<NvmItem>, freq: nat)
    requires freq < 256
    ensures multiset(SortedFrom(items, freq)) == multiset(OfFreq(items, freq)) + multiset(SortedFrom(items, freq + 1))
  {
    hide OfFreq;
  }

  /** However many sectors there are, an image holds at most 15872 items: the sector number is one byte. */
  lemma ItemsFitOneByte(items: seq<NvmItem>, limit: nat)
    requires Plan(items, limit).Ok?
    ensures |items| <= 15872 && |items| <= 62 * limit
  {
    hide Plan, Flat;
    PlanIsPlacement(items, limit);
    PlanCapacity(Plan(items, limit).value);
    SortedIsPermutation(items);
  }

  lemma SortedMembers(items: seq<NvmItem>)
    ensures forall x :: x in Sorted(items) <==> x in items
  {
    SortedIsStable(items);
    forall x ensures x in Sorted(items) <==> x in items {
      OfFreqMembers(items, x.updateFreq);
      OfFreqMembers(Sorted(items), x.updateFreq);
    }
  }

  predicate DistinctTokens(items: seq<NvmItem>) {
    forall i, j :: 0 <= i < j < |items| ==> items[i].token != items[j].token
  }

  lemma {:induction false} OfFreqDistinct(items: seq<NvmItem>, freq: int)
    requires DistinctTokens(items)
    ensures DistinctTokens(OfFreq(items, freq))
  {
    if items != [] {
      OfFreqDistinct(items[..|items| - 1], freq);
      OfFreqMembers(items[..|items| - 1], freq);
    }
  }

  lemma {:induction false} SortedDistinct(items: seq<NvmItem>, from: nat)
    requires from <= 256 && DistinctTokens(items)
    ensures DistinctTokens(SortedFrom(items, from))
    ensures forall x :: x in SortedFrom(items, from) ==> x in items && x.updateFreq >= from
    decreases 256 - from
  {
    if from < 256 {
      var group, rest := OfFreq(items, from), SortedFrom(items, from + 1);
      OfFreqDistinct(items, from);
      OfFreqMembers(items, from);
      SortedDistinct(items, from + 1);
      forall i, j | 0 <= i < |group| && 0 <= j < |rest| ensures group[i].token != rest[j].token {
        assert group[i] in group && rest[j] in rest;
        assert group[i] != rest[j];
      }
    }
  }
}
