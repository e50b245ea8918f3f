/** The generator of an NVM pool: how a plan is written out as bytes. */
module NvmImage {
  import opened Bytes
  import opened Crc
  import opened NvmFormat
  import opened NvmAnalysis
  import opened NvmPlan
  import opened Results

  // ---------- what the bytes of a plan are ----------

  /** Items with consecutive sequence numbers. */
  function Numbered(items: seq<NvmItem>, base: nat): (rs: seq<Record>)
    ensures |rs| == |items|
    ensures forall k :: 0 <= k < |items| ==> rs[k] == Record(base + k, items[k])
  {
    seq(|items|, k requires 0 <= k < |items| => Record(base + k, items[k]))
  }

  lemma {:induction false} NumberedCost(items: seq<NvmItem>, base: nat)
    ensures TotalCost(Numbered(items, base)) == ItemsCost(items)
  {
    if items != [] {
      assert Numbered(items, base)[1..] == Numbered(items[1..], base + 1);
      NumberedCost(items[1..], base + 1);
    }
  }

  function ItemPage(logical: Byte, freq: Byte, page: seq<NvmItem>, base: nat): (bytes: seq<Byte>)
    requires PageHolds(page, freq)
    ensures |bytes| == PAGE_SIZE
  {
    NumberedCost(page, base);
    PageBytes(logical, freq, Numbered(page, base))
  }

  function SectorBytes(logical: Byte, s: Sector, base: nat): (bytes: seq<Byte>)
    requires SectorHolds(s)
    ensures |bytes| == SECTOR_SIZE
  {
    ItemPage(logical, s.freq, s.first, base) + ItemPage(logical, s.freq, s.second, base + |s.first|)
  }

  /** The sequence number that the first item of logical sector l gets. */
  function Base(plan: seq<Sector>, l: nat): nat
    requires l <= |plan|
  {
    |Flat(plan[..l])|
  }

  /** Sector p is one of the first x copies of logical sector l. */
  predicate CopyOf(p: nat, l: nat, stride: nat, x: nat) {
    stride > 0 && p < stride * x && p % stride == l
  }

  /** Physical sector p holds a copy of one of the first count logical sectors. */
  predicate Used(p: nat, count: nat, stride: nat, copies: nat) {
    stride > 0 && p % stride < count && CopyOf(p, p % stride, stride, copies)
  }

  function LogicalBytes(plan: seq<Sector>, l: nat): (bytes: seq<Byte>)
    requires AllHold(plan) && l < |plan| <= 256
    ensures |bytes| == SECTOR_SIZE
  {
    assert plan[l] in plan;
    SectorBytes(l, plan[l], Base(plan, l))
  }

  function PhysicalBytes(plan: seq<Sector>, stride: nat, copies: nat, p: nat): (bytes: seq<Byte>)
    requires AllHold(plan) && |plan| <= 256
    ensures |bytes| == SECTOR_SIZE
  {
    if Used(p, |plan|, stride, copies) then LogicalBytes(plan, p % stride) else Zeros(SECTOR_SIZE)
  }

  /** raw is the pool image of the plan: copy x of logical sector l is physical sector l + stride * x. */
  ghost predicate IsImage(raw: seq<Byte>, plan: seq<Sector>, stride: nat, copies: nat, sectors: nat) {
    && AllHold(plan) && |plan| <= 256 && |plan| <= stride && stride * copies <= sectors
    && |raw| == sectors * SECTOR_SIZE
    && forall p :: 0 <= p < sectors ==> SectorOf(raw, p) == PhysicalBytes(plan, stride, copies, p)
  }

  // ---------- writing in place ----------

  function Patch(s: seq<Byte>, at: nat, bytes: seq<Byte>): (t: seq<Byte>)
    requires at + |bytes| <= |s|
    ensures |t| == |s|
  {
    s[..at] + bytes + s[at + |bytes|..]
  }

  method Put(raw: array<Byte>, at: nat, bytes: seq<Byte>)
    requires at + |bytes| <= raw.Length
    modifies raw
    ensures raw[..] == Patch(old(raw[..]), at, bytes)
  {
    forall k | 0 <= k < |bytes| {
      raw[at + k] := bytes[k];
    }
  }

  lemma PatchTwice(s: seq<Byte>, at: nat, a: seq<Byte>, b: seq<Byte>)
    requires at + |a| + |b| <= |s|
    ensures Patch(Patch(s, at, a), at + |a|, b) == Patch(s, at, a + b)
  {}

  /** Three slice assignments in a row. */
  method PutThree(raw: array<Byte>, at: nat, a: seq<Byte>, b: seq<Byte>, c: seq<Byte>)
    requires at + |a| + |b| + |c| <= raw.Length
    modifies raw
    ensures raw[..] == Patch(old(raw[..]), at, a + b + c)
  {
    hide Patch;
    ghost var was := raw[..];
    Put(raw, at, a);
    Put(raw, at + |a|, b);
    PatchTwice(was, at, a, b);
    Put(raw, at + |a| + |b|, c);
    PatchTwice(was, at, a + b, c);
  }

  /** Write one record; its reserved byte is left as it was. */
  method WriteRecord(raw: array<Byte>, at: nat, r: Record)
    requires Storable(r.item) && at + Length(r.item) <= raw.Length && raw[at + 3] == 0
    modifies raw
    ensures raw[..] == Patch(old(raw[..]), at, EncodeRecord(r))
  {
    hide Crc16, Patch;
    var tokenLength: Byte, dataLength: Byte := |r.item.token|, |r.item.data|;
    var end := at + RECORD_HEADER_SIZE + tokenLength + dataLength;
    ghost var was, lengths := raw[..], [tokenLength, 0, r.item.updateFreq, dataLength];
    raw[at + 2] := tokenLength;
    raw[at + 4] := r.item.updateFreq;
    raw[at + 5] := dataLength;
    PatchLengths(was, raw[..], at + 2, lengths);
    PutThree(raw, at + 6, Le2(r.seqNo), r.item.token, r.item.data);
    ghost var rest := Le2(r.seqNo) + r.item.token + r.item.data;
    PatchTwice(was, at + 2, lengths, rest);
    assert lengths + rest == Covered(r);
    PatchRead(was, at + 2, Covered(r));
    assert raw[at + 2..end] == raw[..][at + 2..end];
    var crc := ComputeCrc16(raw[at + 2..end]);
    Put(raw, at, Le2(crc));
    PatchBefore(was, at, Le2(crc), Covered(r));
  }

  lemma PatchLengths(s: seq<Byte>, t: seq<Byte>, at: nat, bytes: seq<Byte>)
    requires |bytes| == 4 && at + 4 <= |s| == |t| && t[at..at + 4] == bytes
    requires forall k :: 0 <= k < |s| && !(at <= k < at + 4) ==> t[k] == s[k]
    ensures t == Patch(s, at, bytes)
  {}

  lemma PatchRead(s: seq<Byte>, at: nat, bytes: seq<Byte>)
    requires at + |bytes| <= |s|
    ensures Patch(s, at, bytes)[at..at + |bytes|] == bytes
  {}

  lemma PatchBefore(s: seq<Byte>, at: nat, a: seq<Byte>, b: seq<Byte>)
    requires at + |a| + |b| <= |s|
    ensures Patch(Patch(s, at + |a|, b), at, a) == Patch(s, at, a + b)
  {}

  // ---------- filling a page ----------

  /** s is blank from lo to hi. */
  predicate Blank(s: seq<Byte>, lo: nat, hi: nat)
    requires hi <= |s|
  {
    forall k :: lo <= k < hi ==> s[k] == 0
  }

  lemma {:induction false} EncodeAppend(rs: seq<Record>, r: Record)
    requires AllStorable(rs) && Storable(r.item)
    ensures AllStorable(rs + [r]) && EncodeRecords(rs + [r]) == EncodeRecords(rs) + Padded(r)
  {
    hide Padded;
    if rs == [] {
      assert [r][1..] == [];
      assert rs + [r] == [r];
      assert EncodeRecords([]) == [];
      assert EncodeRecords([r]) == Padded(r) + EncodeRecords([r][1..]);
    } else {
      assert (rs + [r])[1..] == rs[1..] + [r];
      EncodeAppend(rs[1..], r);
      assert EncodeRecords(rs + [r]) == Padded(rs[0]) + (EncodeRecords(rs[1..]) + Padded(r));
    }
  }

  /** Blank bytes may as well have been written. */
  lemma PatchOverBlank(s: seq<Byte>, at: nat, a: seq<Byte>, n: nat)
    requires at + |a| + n <= |s| && Blank(s, at + |a|, at + |a| + n)
    ensures Patch(s, at, a) == Patch(s, at, a + Zeros(n))
  {}

  lemma PatchBlank(s: seq<Byte>, at: nat, a: seq<Byte>, lo: nat, hi: nat)
    requires at + |a| <= |s| && hi <= |s| && Blank(s, lo, hi) && at + |a| <= lo
    ensures Blank(Patch(s, at, a), lo, hi)
  {}

  lemma FillStep(group: seq<NvmItem>, i: nat, pos: nat)
    requires i <= |group|
    ensures i == |group| ==> FillPage(group, i, pos) == Some(i)
    ensures i < |group| && !GoodSize(group[i]) ==> FillPage(group, i, pos) == None
    ensures i < |group| && GoodSize(group[i]) && pos + Length(group[i]) > PAGE_SIZE ==>
      FillPage(group, i, pos) == Some(i)
    ensures i < |group| && GoodSize(group[i]) && pos + Length(group[i]) <= PAGE_SIZE ==>
      FillPage(group, i, pos) == FillPage(group, i + 1, pos + Cost(group[i]))
  {}

  /** The first records of a page are written, and the rest of it is still blank. */
  ghost predicate Written(was: seq<Byte>, now: seq<Byte>, start: nat, done: seq<Record>, end: nat) {
    && |was| == |now| && AllStorable(done) && start + |EncodeRecords(done)| <= end <= |was|
    && now == Patch(was, start, EncodeRecords(done))
    && Blank(now, start + |EncodeRecords(done)|, end)
  }

  lemma NothingWrittenYet(was: seq<Byte>, start: nat, end: nat)
    requires start <= end <= |was| && Blank(was, start, end)
    ensures Written(was, was, start, [], end)
  {
    assert EncodeRecords([]) == [];
    assert Patch(was, start, []) == was;
  }

  lemma OneMoreWritten(was: seq<Byte>, before: seq<Byte>, now: seq<Byte>, start: nat, done: seq<Record>, r: Record,
                       end: nat)
    requires Written(was, before, start, done, end) && Storable(r.item)
    requires start + |EncodeRecords(done)| + Cost(r.item) <= end
    requires now == Patch(before, start + |EncodeRecords(done)|, EncodeRecord(r))
    ensures Written(was, now, start, done + [r], end)
  {
    hide Cost, Length, EncodeRecord, EncodeRecords, TotalCost, Patch, Blank;
    var at := start + |EncodeRecords(done)|;
    BlankPart(before, at, end, at + Length(r.item), at + Cost(r.item));
    PatchOverBlank(before, at, EncodeRecord(r), Cost(r.item) - Length(r.item));
    PatchTwice(was, start, EncodeRecords(done), Padded(r));
    EncodeAppend(done, r);
    BlankPart(before, at, end, at + Cost(r.item), end);
    PatchBlank(before, at, Padded(r), at + Cost(r.item), end);
  }

  /** Write items from i on to the page at pageOffset until one does not fit. */
  method WriteItems(raw: array<Byte>, pageOffset: nat, group: seq<NvmItem>, i: nat, sequence: nat)
    returns (next: Result<nat, GenerateError>)
    requires i <= |group| && pageOffset + PAGE_SIZE <= raw.Length
    requires Blank(raw[..], pageOffset + SECTOR_HEADER_SIZE, pageOffset + PAGE_SIZE)
    modifies raw
    ensures FillPage(group, i, SECTOR_HEADER_SIZE).None? <==> next.Err?
    ensures next.Err? ==> next.error == InvalidItemSize
    ensures next.Ok? ==> FillPage(group, i, SECTOR_HEADER_SIZE) == Some(next.value)
    ensures next.Ok? ==> PageFits(Numbered(group[i..next.value], sequence))
    ensures next.Ok? ==>
      raw[..] == Patch(old(raw[..]), pageOffset + SECTOR_HEADER_SIZE,
                       EncodeRecords(Numbered(group[i..next.value], sequence)))
  {
    hide EncodeRecord, EncodeRecords, Cost, Length, FillPage, TotalCost, Patch, Written, Storable;
    var pos, position, nextNumber := SECTOR_HEADER_SIZE, i, sequence;
    ghost var was, start, end := raw[..], pageOffset + SECTOR_HEADER_SIZE, pageOffset + PAGE_SIZE;
    ghost var done: seq<Record> := [];
    NothingWrittenYet(was, start, end);
    WrittenFits(was, was, start, [], end);
    while position < |group|
      invariant i <= position <= |group| && nextNumber == sequence + position - i
      invariant done == Numbered(group[i..position], sequence) && AllStorable(done)
      invariant pos == SECTOR_HEADER_SIZE + |EncodeRecords(done)| && pos <= PAGE_SIZE && pos % 16 == 0
      invariant Written(was, raw[..], start, done, end)
      invariant FillPage(group, i, SECTOR_HEADER_SIZE) == FillPage(group, position, pos)
    {
      FillStep(group, position, pos);
      var item := group[position];
      if !Storable(item) || Length(item) >= PAGE_SIZE {
        return Err(InvalidItemSize);
      }
      if pos + Length(item) > PAGE_SIZE {
        break;
      }
      PaddingFits(pos, item);
      ghost var r, before := Record(nextNumber, item), raw[..];
      WrittenFits(was, before, start, done, end);
      assert before[pageOffset + pos + 3] == 0;
      WriteRecord(raw, pageOffset + pos, Record(nextNumber, item));
      OneMoreWritten(was, before, raw[..], start, done, r, end);
      EncodeAppend(done, r);
      nextNumber := nextNumber + 1;
      AlignedSpan(pos, Length(item));
      CostIsAligned(item);
      pos := AlignUp(pos + Length(item));
      position := position + 1;
      assert group[i..position] == group[i..position - 1] + [item];
      done := done + [r];
    }
    FillStep(group, position, pos);
    WrittenFits(was, raw[..], start, done, end);
    next := Ok(position);
  }

  lemma CostIsAligned(it: NvmItem)
    ensures Cost(it) == AlignUp(Length(it))
  {}

  lemma WrittenFits(was: seq<Byte>, now: seq<Byte>, start: nat, done: seq<Record>, end: nat)
    requires Written(was, now, start, done, end)
    ensures AllStorable(done) && |was| == |now| && start + |EncodeRecords(done)| <= end <= |was|
    ensures now == Patch(was, start, EncodeRecords(done))
    ensures Blank(now, start + |EncodeRecords(done)|, end)
    ensures done == [] ==> |EncodeRecords(done)| == 0
  {}

  // ---------- writing a sector ----------

  lemma PatchSwap(s: seq<Byte>, a: nat, x: seq<Byte>, b: nat, y: seq<Byte>)
    requires a + |x| <= b && b + |y| <= |s|
    ensures Patch(Patch(s, a, x), b, y) == Patch(Patch(s, b, y), a, x)
  {}

  /** The part of a page header that is written. */
  function HeaderFront(logical: Byte, freq: Byte): (h: seq<Byte>)
    ensures |h| == 4
  {
    PageHeader(logical, freq)[..4]
  }

  /** On a blank page, header and records make up the page's bytes. */
  lemma PatchPage(s: seq<Byte>, at: nat, logical: Byte, freq: Byte, rs: seq<Record>)
    requires at + PAGE_SIZE <= |s| && Blank(s, at, at + PAGE_SIZE) && PageFits(rs)
    ensures Patch(Patch(s, at, HeaderFront(logical, freq)), at + SECTOR_HEADER_SIZE, EncodeRecords(rs)) ==
            Patch(s, at, PageBytes(logical, freq, rs))
  {
    hide EncodeRecords, TotalCost, Patch, Blank;
    var h, e := HeaderFront(logical, freq), EncodeRecords(rs);
    BlankPart(s, at, at + PAGE_SIZE, at + 4, at + SECTOR_HEADER_SIZE);
    PatchOverBlank(s, at, h, 12);
    assert PageHeader(logical, freq) == h + Zeros(12);
    PatchTwice(s, at, PageHeader(logical, freq), e);
    BlankPart(s, at, at + PAGE_SIZE, at + SECTOR_HEADER_SIZE + |e|, at + PAGE_SIZE);
    PatchOverBlank(s, at, PageHeader(logical, freq) + e, PAGE_SIZE - SECTOR_HEADER_SIZE - |e|);
  }

  method WriteHeader(raw: array<Byte>, pageOffset: nat, logical: Byte, freq: Byte)
    requires pageOffset + PAGE_SIZE <= raw.Length
    modifies raw
    ensures raw[..] == Patch(old(raw[..]), pageOffset, HeaderFront(logical, freq))
  {
    ghost var was := raw[..];
    raw[pageOffset] := VALID_FLAG;
    raw[pageOffset + 1] := logical;
    raw[pageOffset + 2] := freq;
    raw[pageOffset + 3] := 0;
    PatchLengths(was, raw[..], pageOffset, HeaderFront(logical, freq));
  }

  lemma SectorFromPatches(s: seq<Byte>, at: nat, logical: Byte, freq: Byte, r0: seq<Record>, r1: seq<Record>)
    requires at + SECTOR_SIZE <= |s| && Blank(s, at, at + SECTOR_SIZE) && PageFits(r0) && PageFits(r1)
    ensures var h := HeaderFront(logical, freq);
      Patch(Patch(Patch(Patch(s, at, h), at + 512, h), at + 16, EncodeRecords(r0)), at + 528, EncodeRecords(r1)) ==
      Patch(s, at, PageBytes(logical, freq, r0) + PageBytes(logical, freq, r1))
  {
    hide Patch, EncodeRecords, PageBytes, HeaderFront, Blank;
    var h := HeaderFront(logical, freq);
    PatchSwap(Patch(s, at, h), at + 16, EncodeRecords(r0), at + 512, h);
    BlankPart(s, at, at + SECTOR_SIZE, at, at + 512);
    PatchPage(s, at, logical, freq, r0);
    BlankPart(s, at, at + SECTOR_SIZE, at + 512, at + SECTOR_SIZE);
    PatchBlank(s, at, PageBytes(logical, freq, r0), at + 512, at + SECTOR_SIZE);
    PatchPage(Patch(s, at, PageBytes(logical, freq, r0)), at + 512, logical, freq, r1);
    PatchTwice(s, at, PageBytes(logical, freq, r0), PageBytes(logical, freq, r1));
  }

  lemma BlankPart(s: seq<Byte>, lo: nat, hi: nat, a: nat, b: nat)
    requires lo <= a && b <= hi <= |s| && Blank(s, lo, hi)
    ensures Blank(s, a, b)
  {}

  /** Write headers and items of the logical sector that starts with item i; blank bytes expected. */
  method WriteSector(raw: array<Byte>, sectorOffset: nat, logical: Byte, freq: Byte,
                     group: seq<NvmItem>, i: nat, sequence: nat) returns (next: Result<nat, GenerateError>)
    requires i <= |group| && sectorOffset + SECTOR_SIZE <= raw.Length
    requires forall k :: 0 <= k < |group| ==> group[k].updateFreq == freq
    requires Blank(raw[..], sectorOffset, sectorOffset + SECTOR_SIZE)
    modifies raw
    ensures next.Err? ==> next.error == InvalidItemSize && NextAfterSector(group, i) == None
    ensures next.Ok? ==> NextAfterSector(group, i) == Some(next.value)
    ensures next.Ok? ==> SectorHolds(SectorFor(freq, group, i))
    ensures next.Ok? ==>
      raw[..] == Patch(old(raw[..]), sectorOffset, SectorBytes(logical, SectorFor(freq, group, i), sequence))
  {
    hide Patch, EncodeRecords, FillPage, PageBytes, Blank, TotalCost, SectorHolds, PageHolds, HeaderFront;
    ghost var was, h := raw[..], HeaderFront(logical, freq);
    for page := 0 to PAGES_PER_SECTOR
      invariant raw[..] == if page == 0 then was else if page == 1 then Patch(was, sectorOffset, h)
                           else Patch(Patch(was, sectorOffset, h), sectorOffset + 512, h)
    {
      WriteHeader(raw, sectorOffset + page * PAGE_SIZE, logical, freq);
    }
    BlankBodies(was, sectorOffset, h);
    ghost var headed := raw[..];
    var position := i;
    ghost var j := i;
    ghost var r0: seq<Record> := [];
    ghost var r1: seq<Record> := [];
    for page := 0 to PAGES_PER_SECTOR
      invariant i <= j <= position <= |group| && (page < 2 ==> position == j)
      invariant page > 0 ==> FillPage(group, i, SECTOR_HEADER_SIZE) == Some(j)
      invariant page > 0 ==> r0 == Numbered(group[i..j], sequence) && PageFits(r0)
      invariant page > 1 ==> FillPage(group, j, SECTOR_HEADER_SIZE) == Some(position)
      invariant page > 1 ==> r1 == Numbered(group[j..position], sequence + j - i) && PageFits(r1)
      invariant page == 0 ==> raw[..] == headed && j == i
      invariant page == 1 ==> raw[..] == Patch(headed, sectorOffset + 16, EncodeRecords(r0))
      invariant page == 2 ==>
        raw[..] == Patch(Patch(headed, sectorOffset + 16, EncodeRecords(r0)), sectorOffset + 528, EncodeRecords(r1))
    {
      if page == 1 {
        PatchBlank(headed, sectorOffset + 16, EncodeRecords(r0), sectorOffset + 528, sectorOffset + SECTOR_SIZE);
      }
      var filled := WriteItems(raw, sectorOffset + page * PAGE_SIZE, group, position, sequence + position - i);
      if filled.Err? {
        return filled;
      }
      if page == 0 {
        j, r0 := filled.value, Numbered(group[i..filled.value], sequence);
      } else {
        r1 := Numbered(group[j..filled.value], sequence + j - i);
      }
      position := filled.value;
    }
    next := Ok(position);
    FilledSectorHolds(freq, group, i);
    SectorFromPatches(was, sectorOffset, logical, freq, r0, r1);
  }

  function NextAfterSector(group: seq<NvmItem>, i: nat): (next: Option<nat>)
    requires i <= |group|
    ensures next.Some? ==> i <= next.value <= |group|
  {
    match FillPage(group, i, SECTOR_HEADER_SIZE)
    case None => None
    case Some(j) => FillPage(group, j, SECTOR_HEADER_SIZE)
  }

  function SectorFor(freq: Byte, group: seq<NvmItem>, i: nat): Sector
    requires i <= |group| && NextAfterSector(group, i).Some?
  {
    var j := FillPage(group, i, SECTOR_HEADER_SIZE).value;
    Sector(freq, group[i..j], group[j..NextAfterSector(group, i).value])
  }

  lemma BlankBodies(s: seq<Byte>, at: nat, h: seq<Byte>)
    requires at + SECTOR_SIZE <= |s| && Blank(s, at, at + SECTOR_SIZE) && |h| == 4
    ensures Blank(Patch(Patch(s, at, h), at + 512, h), at + 16, at + 512)
    ensures Blank(Patch(Patch(s, at, h), at + 512, h), at + 528, at + SECTOR_SIZE)
  {}

  // ---------- replicas ----------

  lemma PatchedAt(s: seq<Byte>, at: nat, bytes: seq<Byte>, k: nat)
    requires at + |bytes| <= |s| && k < |s|
    ensures Patch(s, at, bytes)[k] == if at <= k < at + |bytes| then bytes[k - at] else s[k]
  {}

  lemma SectorAt(raw: seq<Byte>, p: nat, k: nat)
    requires (p + 1) * SECTOR_SIZE <= |raw| && k < SECTOR_SIZE
    ensures SectorOf(raw, p)[k] == raw[p * SECTOR_SIZE + k]
  {}

  lemma PatchedSector(raw: seq<Byte>, q: nat, bytes: seq<Byte>, p: nat)
    requires |bytes| == SECTOR_SIZE && (q + 1) * SECTOR_SIZE <= |raw| && (p + 1) * SECTOR_SIZE <= |raw|
    ensures SectorOf(Patch(raw, q * SECTOR_SIZE, bytes), p) == if p == q then bytes else SectorOf(raw, p)
  {
    hide SectorOf, Patch;
    var patched := Patch(raw, q * SECTOR_SIZE, bytes);
    MulMonotone(SECTOR_SIZE, p, q);
    MulMonotone(SECTOR_SIZE, q, p);
    forall k | 0 <= k < SECTOR_SIZE
      ensures SectorOf(patched, p)[k] == if p == q then bytes[k] else SectorOf(raw, p)[k]
    {
      SectorAt(patched, p, k);
      SectorAt(raw, p, k);
      PatchedAt(raw, q * SECTOR_SIZE, bytes, p * SECTOR_SIZE + k);
    }
  }

  /** Within one stride, the sector with remainder l is l + stride * x. */
  lemma StrideIndex(stride: nat, l: nat, x: nat, p: nat)
    requires l < stride
    ensures (l + stride * x) % stride == l && l + stride * x < stride * (x + 1)
    ensures stride * x <= p < stride * (x + 1) && p % stride == l ==> p == l + stride * x
  {
    ModOf(stride, l, x);
    if stride * x <= p < stride * (x + 1) && p % stride == l {
      var d := p - stride * x;
      assert p == d + stride * x;
      ModOf(stride, d, x);
    }
  }

  lemma {:induction false} ModOf(stride: nat, d: nat, x: nat)
    requires d < stride
    ensures (d + stride * x) % stride == d && stride * (x + 1) == stride * x + stride
  {
    var p := d + stride * x;
    assert p / stride == x && p % stride == d by {
      DivModUnique(p, stride, x, d);
    }
  }

  lemma DivModUnique(p: nat, m: nat, q: nat, r: nat)
    requires r < m && p == r + m * q
    ensures p / m == q && p % m == r
  {
    var q', r' := p / m, p % m;
    MulMonotone(m, q', q);
    MulMonotone(m, q, q');
  }

  lemma {:induction false} MulMonotone(m: nat, a: nat, b: nat)
    ensures a < b ==> m * a + m <= m * b
    decreases b
  {
    if a + 1 < b {
      MulMonotone(m, a, b - 1);
    }
    assert b > 0 ==> m * b == m * (b - 1) + m;
  }

  lemma NextCopy(l: nat, stride: nat, x: nat)
    requires l < stride
    ensures forall p: nat :: CopyOf(p, l, stride, x + 1) <==> CopyOf(p, l, stride, x) || p == l + stride * x
    ensures stride * x <= l + stride * x < stride * (x + 1)
  {
    StrideIndex(stride, l, x, 0);
    forall p: nat ensures CopyOf(p, l, stride, x + 1) <==> CopyOf(p, l, stride, x) || p == l + stride * x {
      StrideIndex(stride, l, x, p);
      ModOf(stride, l, x);
    }
  }

  lemma CopiesInRange(l: nat, stride: nat, copies: nat, x: nat)
    requires l < stride && x < copies
    ensures l + stride * x < stride * copies
  {
    assert stride * (x + 1) <= stride * copies;
    ModOf(stride, l, x);
  }

  /** Write one logical sector with its replicas. */
  method WriteReplicas(raw: array<Byte>, logical: nat, stride: nat, copies: nat, sectors: nat, ghost bytes: seq<Byte>)
    requires logical < stride && copies >= 1 && stride * copies <= sectors
    requires raw.Length == sectors * SECTOR_SIZE && |bytes| == SECTOR_SIZE
    requires raw[..][logical * SECTOR_SIZE..(logical + 1) * SECTOR_SIZE] == bytes
    modifies raw
    ensures forall p :: 0 <= p < sectors ==>
      SectorOf(raw[..], p) == if CopyOf(p, logical, stride, copies) then bytes else SectorOf(old(raw[..]), p)
  {
    hide Patch, CopyOf, SectorOf;
    ghost var was := raw[..];
    FirstCopy(was, logical, stride, sectors, bytes);
    CopiesInRange(logical, stride, copies, 0);
    for x := 1 to copies
      invariant forall p :: 0 <= p < sectors ==>
        SectorOf(raw[..], p) == if CopyOf(p, logical, stride, x) then bytes else SectorOf(was, p)
    {
      CopiesInRange(logical, stride, copies, x);
      ghost var before := raw[..];
      var physical := logical + stride * x;
      SectorIsSlice(before, logical);
      FirstIsCopy(logical, stride, x);
      assert SectorOf(before, logical) == bytes;
      Put(raw, physical * SECTOR_SIZE, raw[logical * SECTOR_SIZE..(logical + 1) * SECTOR_SIZE]);
      NextCopy(logical, stride, x);
      forall p | 0 <= p < sectors
        ensures SectorOf(raw[..], p) == if CopyOf(p, logical, stride, x + 1) then bytes else SectorOf(was, p)
      {
        PatchedSector(before, physical, bytes, p);
      }
    }
  }

  lemma SectorIsSlice(raw: seq<Byte>, p: nat)
    requires (p + 1) * SECTOR_SIZE <= |raw|
    ensures SectorOf(raw, p) == raw[p * SECTOR_SIZE..(p + 1) * SECTOR_SIZE]
  {}

  lemma FirstIsCopy(l: nat, stride: nat, x: nat)
    requires l < stride && x >= 1
    ensures CopyOf(l, l, stride, x)
  {
    StrideIndex(stride, l, 0, l);
    MulMonotone(stride, 0, x);
  }

  lemma FirstCopy(raw: seq<Byte>, l: nat, stride: nat, sectors: nat, bytes: seq<Byte>)
    requires l < stride <= sectors && |raw| == sectors * SECTOR_SIZE && |bytes| == SECTOR_SIZE
    requires raw[l * SECTOR_SIZE..(l + 1) * SECTOR_SIZE] == bytes
    ensures forall p :: 0 <= p < sectors ==>
      SectorOf(raw, p) == if CopyOf(p, l, stride, 1) then bytes else SectorOf(raw, p)
  {
    hide CopyOf, SectorOf;
    SectorIsSlice(raw, l);
    forall p | 0 <= p < sectors && CopyOf(p, l, stride, 1) ensures p == l {
      OnlyCopy(p, l, stride);
    }
  }

  lemma OnlyCopy(p: nat, l: nat, stride: nat)
    requires CopyOf(p, l, stride, 1)
    ensures p == l
  {
    StrideIndex(stride, l, 0, p);
  }

  // ---------- the generator ----------

  method GroupItems(items: seq<NvmItem>) returns (groups: map<int, seq<NvmItem>>)
    ensures forall f: int :: f in groups <==> OfFreq(items, f) != []
    ensures forall f: int :: f in groups ==> groups[f] == OfFreq(items, f)
  {
    groups := map[];
    for k := 0 to |items|
      invariant forall f: int :: f in groups <==> OfFreq(items[..k], f) != []
      invariant forall f: int :: f in groups ==> groups[f] == OfFreq(items[..k], f)
    {
      var item := items[k];
      ghost var done := items[..k + 1];
      assert done[..|done| - 1] == items[..k] && done[|done| - 1] == item;
      if item.updateFreq !in groups {
        groups := groups[item.updateFreq as int := []];
      }
      groups := groups[item.updateFreq as int := groups[item.updateFreq] + [item]];
    }
    assert items[..|items|] == items;
  }

  /** What is left of the plan once the sectors before item i of the group of this frequency are done. */
  function Resume(items: seq<NvmItem>, freq: nat, i: nat, next: nat, limit: nat): Result<seq<Sector>, GenerateError>
    requires freq < 256 && i <= |OfFreq(items, freq)|
  {
    match PackGroup(freq, OfFreq(items, freq), i, next, limit)
    case Err(e) => Err(e)
    case Ok(sectors) => Prefixed(sectors, PackFrom(items, freq + 1, next + |sectors|, limit))
  }

  lemma PrefixedTwice(a: seq<Sector>, b: seq<Sector>, r: Result<seq<Sector>, GenerateError>)
    ensures Prefixed(a, Prefixed(b, r)) == Prefixed(a + b, r) && Prefixed([], r) == r
  {
    if r.Ok? {
      assert a + (b + r.value) == (a + b) + r.value;
      assert [] + r.value == r.value;
    }
  }

  lemma ResumeDone(items: seq<NvmItem>, freq: nat, next: nat, limit: nat)
    requires freq < 256
    ensures Resume(items, freq, |OfFreq(items, freq)|, next, limit) == PackFrom(items, freq + 1, next, limit)
  {
    PrefixedTwice([], [], PackFrom(items, freq + 1, next, limit));
  }

  lemma ResumeStep(items: seq<NvmItem>, freq: nat, i: nat, next: nat, limit: nat)
    requires freq < 256 && i < |OfFreq(items, freq)|
    ensures next >= limit ==> Resume(items, freq, i, next, limit) == Err(NotEnoughSectors)
    ensures next < limit && next > 255 ==> Resume(items, freq, i, next, limit) == Err(SectorIndexTooLarge)
    ensures next < limit && next <= 255 && NextAfterSector(OfFreq(items, freq), i).None? ==>
      Resume(items, freq, i, next, limit) == Err(InvalidItemSize)
    ensures next < limit && next <= 255 && NextAfterSector(OfFreq(items, freq), i).Some? ==>
      Resume(items, freq, i, next, limit) == Prefixed([SectorFor(freq, OfFreq(items, freq), i)],
        Resume(items, freq, NextAfterSector(OfFreq(items, freq), i).value, next + 1, limit))
  {
    hide FillPage, OfFreq;
    var group := OfFreq(items, freq);
    if next < limit && next <= 255 && NextAfterSector(group, i).Some? {
      var s, k := SectorFor(freq, group, i), NextAfterSector(group, i).value;
      var more := PackGroup(freq, group, k, next + 1, limit);
      if more.Ok? {
        PrefixedTwice([s], more.value, PackFrom(items, freq + 1, next + 1 + |more.value|, limit));
      }
    }
  }

  lemma BlankImage(raw: seq<Byte>, stride: nat, copies: nat, sectors: nat)
    requires |raw| == sectors * SECTOR_SIZE && stride * copies <= sectors
    requires forall k :: 0 <= k < |raw| ==> raw[k] == 0
    ensures IsImage(raw, [], stride, copies, sectors)
  {}

  /** The next logical sector of an image is still blank. */
  lemma NextIsBlank(raw: seq<Byte>, plan: seq<Sector>, stride: nat, copies: nat, sectors: nat)
    requires IsImage(raw, plan, stride, copies, sectors) && |plan| < stride && copies >= 1
    ensures (|plan| + 1) * SECTOR_SIZE <= |raw|
    ensures Blank(raw, |plan| * SECTOR_SIZE, |plan| * SECTOR_SIZE + SECTOR_SIZE)
  {
    hide SectorOf, Blank, Flat, SectorBytes, SectorHolds;
    var l := |plan|;
    StrideIndex(stride, l, 0, l);
    CopiesInRange(l, stride, copies, 0);
    assert PhysicalBytes(plan, stride, copies, l) == Zeros(SECTOR_SIZE);
    ZeroSectorIsBlank(raw, l);
  }

  lemma ZeroSectorIsBlank(raw: seq<Byte>, p: nat)
    requires (p + 1) * SECTOR_SIZE <= |raw| && SectorOf(raw, p) == Zeros(SECTOR_SIZE)
    ensures Blank(raw, p * SECTOR_SIZE, p * SECTOR_SIZE + SECTOR_SIZE)
  {
    forall k | p * SECTOR_SIZE <= k < (p + 1) * SECTOR_SIZE ensures raw[k] == 0 {
      assert raw[k] == SectorOf(raw, p)[k - p * SECTOR_SIZE];
    }
  }

  lemma BaseOfPrefix(plan: seq<Sector>, s: Sector, l: nat)
    requires l <= |plan|
    ensures Base(plan + [s], l) == Base(plan, l)
  {
    assert (plan + [s])[..l] == plan[..l];
  }

  lemma ExtendImage(raw: seq<Byte>, raw': seq<Byte>, plan: seq<Sector>, s: Sector,
                    stride: nat, copies: nat, sectors: nat)
    requires IsImage(raw, plan, stride, copies, sectors) && |raw'| == |raw|
    requires |plan| < stride && |plan| < 256 && SectorHolds(s)
    requires forall p :: 0 <= p < sectors ==>
      SectorOf(raw', p) == if CopyOf(p, |plan|, stride, copies) then SectorBytes(|plan|, s, |Flat(plan)|)
                           else SectorOf(raw, p)
    ensures IsImage(raw', plan + [s], stride, copies, sectors)
  {
    hide SectorHolds, SectorBytes, SectorOf, Flat;
    var plan' := plan + [s];
    assert plan'[..|plan|] == plan && plan[..|plan|] == plan;
    assert AllHold(plan');
    forall p | 0 <= p < sectors ensures SectorOf(raw', p) == PhysicalBytes(plan', stride, copies, p) {
      if Used(p, |plan'|, stride, copies) && p % stride < |plan| {
        BaseOfPrefix(plan, s, p % stride);
        assert plan'[p % stride] == plan[p % stride];
      }
    }
  }

  /** Allocate and write the next logical sector, with its copies, for the items from position on. */
  method WriteLogicalSector(raw: array<Byte>, logical: nat, stride: nat, copies: nat, sectors: nat, freq: Byte,
                            group: seq<NvmItem>, position: nat, number: nat, ghost plan: seq<Sector>)
    returns (next: Result<nat, GenerateError>)
    requires copies >= 1 && logical == |plan| < stride && logical <= 255 && position <= |group|
    requires IsImage(raw[..], plan, stride, copies, sectors) && number == |Flat(plan)|
    requires forall k :: 0 <= k < |group| ==> group[k].updateFreq == freq
    modifies raw
    ensures next.Err? ==> next.error == InvalidItemSize && NextAfterSector(group, position) == None
    ensures next.Ok? ==> NextAfterSector(group, position) == Some(next.value)
    ensures next.Ok? ==> var plan' := plan + [SectorFor(freq, group, position)];
      IsImage(raw[..], plan', stride, copies, sectors) && number + next.value - position == |Flat(plan')|
  {
    hide Flat, IsImage, SectorOf, CopyOf, Blank, SectorHolds, SectorBytes, NextAfterSector, Patch;
    ghost var before := raw[..];
    ImageBounds(before, plan, stride, copies, sectors);
    NextIsBlank(before, plan, stride, copies, sectors);
    next := WriteSector(raw, logical * SECTOR_SIZE, logical, freq, group, position, number);
    if next.Err? {
      return next;
    }
    ghost var s := SectorFor(freq, group, position);
    ghost var bytes := SectorBytes(logical, s, number);
    ghost var written := raw[..];
    PatchReadSector(before, logical, bytes);
    WriteReplicas(raw, logical, stride, copies, sectors, bytes);
    ReplicasAreCopies(before, written, raw[..], logical, stride, copies, sectors, bytes);
    ExtendImage(before, raw[..], plan, s, stride, copies, sectors);
    SectorCount(plan, s, freq, group, position);
  }

  lemma ImageBounds(raw: seq<Byte>, plan: seq<Sector>, stride: nat, copies: nat, sectors: nat)
    requires IsImage(raw, plan, stride, copies, sectors)
    ensures |raw| == sectors * SECTOR_SIZE && stride * copies <= sectors
  {}

  /** Write logical sectors until the items of one frequency are stored. The ghost result is the plan so far. */
  method WriteGroup(raw: array<Byte>, ghost items: seq<NvmItem>, freq: Byte, group: seq<NvmItem>, firstLogical: nat,
                    firstNumber: nat, stride: nat, copies: nat, sectors: nat, ghost plan: seq<Sector>)
    returns (res: Result<(nat, nat), GenerateError>, ghost plan': seq<Sector>)
    requires copies >= 1 && group == OfFreq(items, freq)
    requires firstLogical == |plan| && firstNumber == |Flat(plan)| && IsImage(raw[..], plan, stride, copies, sectors)
    modifies raw
    ensures res.Err? ==> Resume(items, freq, 0, firstLogical, stride) == Err(res.error)
    ensures res.Ok? ==>
      && res.value == (|plan'|, |Flat(plan')|) && IsImage(raw[..], plan', stride, copies, sectors)
      && Prefixed(plan, Resume(items, freq, 0, firstLogical, stride)) ==
         Prefixed(plan', PackFrom(items, freq + 1, |plan'|, stride))
  {
    hide PackFrom, OfFreq, IsImage, Flat, Resume, NextAfterSector, SectorFor, Prefixed;
    var logical, number := firstLogical, firstNumber;
    var position: nat := 0;
    ghost var whole := Resume(items, freq, 0, firstLogical, stride);
    plan' := plan;
    while position < |group|
      invariant position <= |group| && logical == |plan'| && number == |Flat(plan')|
      invariant Prefixed(plan, whole) == Prefixed(plan', Resume(items, freq, position, logical, stride))
      invariant IsImage(raw[..], plan', stride, copies, sectors)
      decreases stride - logical
    {
      ResumeStep(items, freq, position, logical, stride);
      if logical >= stride {
        SameError(plan, whole, plan', NotEnoughSectors);
        return Err(NotEnoughSectors), plan';
      }
      if logical > 255 {
        SameError(plan, whole, plan', SectorIndexTooLarge);
        return Err(SectorIndexTooLarge), plan';
      }
      var next := WriteLogicalSector(raw, logical, stride, copies, sectors, freq, group, position, number, plan');
      if next.Err? {
        SameError(plan, whole, plan', InvalidItemSize);
        return Err(next.error), plan';
      }
      ghost var s := SectorFor(freq, group, position);
      PrefixedTwice(plan', [s], Resume(items, freq, next.value, logical + 1, stride));
      plan' := plan' + [s];
      number := number + next.value - position;
      logical, position := logical + 1, next.value;
    }
    ResumeDone(items, freq, logical, stride);
    res := Ok((logical, number));
  }

  lemma SameError(a: seq<Sector>, r: Result<seq<Sector>, GenerateError>, b: seq<Sector>, e: GenerateError)
    requires Prefixed(a, r) == Prefixed(b, Err(e))
    ensures r == Err(e)
  {}

  /** Generate one pool image. */
  method GeneratePool(items: seq<NvmItem>, sectors: nat, copies: nat) returns (res: Result<seq<Byte>, GenerateError>)
    requires copies >= 1
    ensures res.Err? <==> Plan(items, sectors / copies).Err?
    ensures res.Err? ==> res.error == Plan(items, sectors / copies).error
    ensures res.Ok? ==> IsImage(res.value, Plan(items, sectors / copies).value, sectors / copies, copies, sectors)
  {
    hide PackFrom, OfFreq, IsImage, Flat, Resume, Prefixed;
    var raw := new Byte[sectors * SECTOR_SIZE](_ => 0);
    var stride := sectors / copies;
    DivBound(sectors, copies);
    BlankImage(raw[..], stride, copies, sectors);
    var logical, number := 0, 0;
    ghost var plan: seq<Sector> := [];
    ghost var whole := Plan(items, stride);
    PrefixedTwice([], [], whole);
    FlatEmpty();
    var groups := GroupItems(items);
    for freq := 0 to 256
      invariant logical == |plan| && number == |Flat(plan)|
      invariant whole == Prefixed(plan, PackFrom(items, freq, logical, stride))
      invariant IsImage(raw[..], plan, stride, copies, sectors)
    {
      var group := if freq in groups then groups[freq] else [];
      assert group == OfFreq(items, freq);
      PackFromIsResume(items, freq, logical, stride);
      ghost var before := plan;
      var written;
      written, plan := WriteGroup(raw, items, freq, group, logical, number, stride, copies, sectors, plan);
      if written.Err? {
        ErrorPrefixed(before, written.error);
        return Err(written.error);
      }
      logical, number := written.value.0, written.value.1;
    }
    PackFromEnd(items, logical, stride);
    PrefixedAll(plan);
    res := Ok(raw[..]);
  }

  lemma ErrorPrefixed(plan: seq<Sector>, e: GenerateError)
    ensures Prefixed(plan, Err(e)) == Err(e)
  {}

  lemma PrefixedAll(plan: seq<Sector>)
    ensures Prefixed(plan, Ok([])) == Ok(plan)
  {
    assert plan + [] == plan;
  }

  lemma PackFromIsResume(items: seq<NvmItem>, freq: nat, next: nat, limit: nat)
    requires freq < 256
    ensures PackFrom(items, freq, next, limit) == Resume(items, freq, 0, next, limit)
  {}

  lemma PackFromEnd(items: seq<NvmItem>, next: nat, limit: nat)
    ensures PackFrom(items, 256, next, limit) == Ok([])
  {}

  lemma DivBound(n: nat, m: nat)
    requires m >= 1
    ensures n / m * m <= n
  {}

  lemma PatchReadSector(raw: seq<Byte>, q: nat, bytes: seq<Byte>)
    requires |bytes| == SECTOR_SIZE && (q + 1) * SECTOR_SIZE <= |raw|
    ensures Patch(raw, q * SECTOR_SIZE, bytes)[q * SECTOR_SIZE..(q + 1) * SECTOR_SIZE] == bytes
  {
    PatchRead(raw, q * SECTOR_SIZE, bytes);
  }

  lemma ReplicasAreCopies(before: seq<Byte>, written: seq<Byte>, after: seq<Byte>, l: nat, stride: nat, copies: nat,
                          sectors: nat, bytes: seq<Byte>)
    requires l < stride && copies >= 1 && stride * copies <= sectors && |bytes| == SECTOR_SIZE
    requires |before| == |after| == |written| == sectors * SECTOR_SIZE && (l + 1) * SECTOR_SIZE <= |before|
    requires written == Patch(before, l * SECTOR_SIZE, bytes)
    requires forall p :: 0 <= p < sectors ==>
      SectorOf(after, p) == if CopyOf(p, l, stride, copies) then bytes else SectorOf(written, p)
    ensures forall p :: 0 <= p < sectors ==>
      SectorOf(after, p) == if CopyOf(p, l, stride, copies) then bytes else SectorOf(before, p)
  {
    hide Patch, SectorOf, CopyOf;
    FirstIsCopy(l, stride, copies);
    forall p | 0 <= p < sectors && !CopyOf(p, l, stride, copies) ensures SectorOf(written, p) == SectorOf(before, p) {
      PatchedSector(before, l, bytes, p);
    }
  }

  lemma SectorCount(plan: seq<Sector>, s: Sector, freq: Byte, group: seq<NvmItem>, i: nat)
    requires i <= |group| && NextAfterSector(group, i).Some? && s == SectorFor(freq, group, i)
    ensures |Flat(plan + [s])| == |Flat(plan)| + NextAfterSector(group, i).value - i
  {
    hide FillPage;
    FlatConcat(plan, [s]);
    FlatOne(s);
  }
}
