/** Integrity of a pool image: where records lie, what the analyser accepts, and which errors it catches. */
module NvmIntegrity {
  import opened Bytes
  import opened Crc
  import opened NvmFormat
  import opened NvmAnalysis
  import opened NvmNewest
  import opened NvmPlan
  import opened NvmImage
  import opened NvmRecovery
  import opened Results

  // ---------- soundness of the parser ----------

  /** The parse of these bytes reaches a record at `at`, all records before it and itself intact. */
  predicate StartsAt(rest: seq<Byte>, at: nat)
    decreases |rest|
  {
    && RecordPresent(rest) && RecordIntact(rest)
    && (at == 0 || (at >= AlignUp(RecordEnd(rest)) && AlignUp(RecordEnd(rest)) <= |rest| &&
                    StartsAt(AfterRecord(rest), at - AlignUp(RecordEnd(rest)))))
  }

  /** An intact record lies at `at`. */
  predicate IntactAt(rest: seq<Byte>, at: nat) {
    RecordPresent(Tail(rest, at)) && RecordIntact(Tail(rest, at))
  }

  lemma TailAfterRecord(rest: seq<Byte>, at: nat)
    requires RecordPresent(rest) && RecordIntact(rest)
    requires AlignUp(RecordEnd(rest)) <= at && AlignUp(RecordEnd(rest)) <= |rest|
    ensures AfterRecord(rest) == rest[AlignUp(RecordEnd(rest))..]
    ensures Tail(AfterRecord(rest), at - AlignUp(RecordEnd(rest))) == Tail(rest, at)
  {
    hide AlignUp, RecordEnd, RecordPresent, RecordIntact, Tail;
    TailOfTail(rest, AlignUp(RecordEnd(rest)), at - AlignUp(RecordEnd(rest)));
    TailFacts(rest, AlignUp(RecordEnd(rest)));
    TailFacts(AfterRecord(rest), at - AlignUp(RecordEnd(rest)));
  }

  lemma TailFacts(rest: seq<Byte>, at: nat)
    ensures Tail(rest, at) == if at <= |rest| then rest[at..] else []
  {}

  lemma {:induction false} StartIsIntact(rest: seq<Byte>, at: nat)
    requires StartsAt(rest, at)
    ensures IntactAt(rest, at)
    decreases |rest|
  {
    hide RecordPresent, RecordIntact, AlignUp, RecordEnd;
    if at == 0 {
      assert rest[0..] == rest;
    } else {
      StartIsIntact(AfterRecord(rest), at - AlignUp(RecordEnd(rest)));
      TailAfterRecord(rest, at);
    }
  }

  lemma ParsedHead(rest: seq<Byte>, poolId: int)
    requires ParseRecords(rest, poolId).Some? && |ParseRecords(rest, poolId).value| > 0
    ensures RecordPresent(rest) && RecordIntact(rest)
    ensures ParseRecords(rest, poolId).value[0] == DecodeRecord(rest, poolId)
    ensures ParseRecords(AfterRecord(rest), poolId) == Some(ParseRecords(rest, poolId).value[1..])
  {
    hide Crc16, DecodeRecord, AfterRecord, Num2;
  }

  lemma MoreParsed(rest: seq<Byte>, poolId: int)
    requires RecordPresent(rest) && RecordEnd(rest) <= |rest|
    requires ParseRecords(AfterRecord(rest), poolId) != Some([])
    ensures AlignUp(RecordEnd(rest)) <= |rest|
  {
    hide AlignUp;
    NothingInNothing(poolId);
  }

  lemma {:induction false} ParsedRecord(rest: seq<Byte>, k: nat, poolId: int) returns (at: nat)
    requires ParseRecords(rest, poolId).Some? && k < |ParseRecords(rest, poolId).value|
    ensures StartsAt(rest, at) && IntactAt(rest, at)
    ensures DecodeRecord(Tail(rest, at), poolId) == ParseRecords(rest, poolId).value[k]
    decreases |rest|
  {
    hide DecodeRecord, AlignUp, RecordEnd, Crc16, Tail, Num2, ParseRecords, AfterRecord;
    ParsedHead(rest, poolId);
    if k == 0 {
      at := 0;
      TailFacts(rest, 0);
      assert rest[0..] == rest;
    } else {
      MoreParsed(rest, poolId);
      var inner := ParsedRecord(AfterRecord(rest), k - 1, poolId);
      at := inner + AlignUp(RecordEnd(rest));
      TailAfterRecord(rest, at);
    }
  }

  lemma NothingInNothing(poolId: int)
    ensures ParseRecords([], poolId) == Some([])
  {}

  /** Physical sector p is valid and nothing in it is corrupt. */
  predicate CleanSector(raw: seq<Byte>, p: nat, poolId: int) {
    (p + 1) * SECTOR_SIZE <= |raw| && ScanSector(SectorOf(raw, p), poolId).Valid?
  }

  function CleanRecords(raw: seq<Byte>, p: nat, poolId: int): seq<Record> {
    if CleanSector(raw, p, poolId) then RecordsOf(ScanSector(SectorOf(raw, p), poolId)) else []
  }

  lemma {:induction false} RecordSector(raw: seq<Byte>, n: nat, r: Record, poolId: int) returns (p: nat)
    requires n * SECTOR_SIZE <= |raw| && r in AllRecords(raw, n, poolId)
    ensures p < n && r in CleanRecords(raw, p, poolId)
  {
    hide ScanSector, SectorOf;
    if r in RecordsOf(ScanSector(SectorOf(raw, n - 1), poolId)) {
      p := n - 1;
    } else {
      p := RecordSector(raw, n - 1, r, poolId);
    }
  }

  function RecordArea(page: seq<Byte>): seq<Byte>
    requires |page| == PAGE_SIZE
  {
    page[SECTOR_HEADER_SIZE..]
  }

  /** r is read from page g of physical sector p: that sector is clean, and the record at `at` in the page's record
      area lies inside the page and has a matching CRC. */
  predicate ReadFrom(raw: seq<Byte>, p: nat, g: nat, at: nat, r: Record, poolId: int) {
    && g < PAGES_PER_SECTOR && CleanSector(raw, p, poolId)
    && var area := RecordArea(PageOf(SectorOf(raw, p), g));
    StartsAt(area, at) && IntactAt(area, at) && DecodeRecord(Tail(area, at), poolId) == r
  }

  /** No record of the token counts as newer. */
  predicate NewestOfToken(rs: seq<Record>, r: Record) {
    forall q :: q in rs && q.item.token == r.item.token ==>
      Extended(q.seqNo, Wrapping(rs)) <= Extended(r.seqNo, Wrapping(rs))
  }

  lemma SectorRecordSource(raw: seq<Byte>, p: nat, r: Record, poolId: int) returns (g: nat, at: nat)
    requires r in CleanRecords(raw, p, poolId)
    ensures ReadFrom(raw, p, g, at, r, poolId)
  {
    hide ParseRecords, DecodeRecord, RecordIntact, RecordPresent, StartsAt, IntactAt, Tail, SectorOf;
    var sector := SectorOf(raw, p);
    var first := ParsePage(PageOf(sector, 0), poolId).value;
    var records := CleanRecords(raw, p, poolId);
    var i :| 0 <= i < |records| && records[i] == r;
    if i < |first| {
      g := 0;
      at := ParsedRecord(RecordArea(PageOf(sector, 0)), i, poolId);
    } else {
      g := 1;
      at := ParsedRecord(RecordArea(PageOf(sector, 1)), i - |first|, poolId);
    }
  }

  lemma ReturnedRecord(rs: seq<Record>, k: nat) returns (r: Record)
    requires Conclude(rs).Ok? && k < |Conclude(rs).value|
    ensures r in rs && r.item == Conclude(rs).value[k] && NewestOfToken(rs, r)
  {
    hide Newest, Tokens, Wrapping;
    var j := NewestWins(rs, Wrapping(rs), Tokens(rs)[k]);
    r := rs[j];
  }

  /** Soundness: every returned item is an intact record of a sector without any corruption, and is the newest one. */
  lemma {:induction false} ReturnedItemIsStored(raw: seq<Byte>, poolId: int, k: nat)
    returns (r: Record, p: nat, g: nat, at: nat)
    requires Analysis(raw, poolId).Ok? && k < |Analysis(raw, poolId).value|
    ensures r.item == Analysis(raw, poolId).value[k]
    ensures ReadFrom(raw, p, g, at, r, poolId)
    ensures NewestOfToken(PoolRecords(raw, poolId), r)
  {
    hide Conclude, CleanRecords, ReadFrom, AllRecords, NewestOfToken;
    r := ReturnedRecord(PoolRecords(raw, poolId), k);
    p := RecordSector(raw, |raw| / SECTOR_SIZE, r, poolId);
    g, at := SectorRecordSource(raw, p, r, poolId);
  }

  /** Completeness: every token stored in a clean sector is returned. */
  lemma StoredTokenIsReturned(raw: seq<Byte>, poolId: int, p: nat, r: Record) returns (k: nat)
    requires Analysis(raw, poolId).Ok? && p < |raw| / SECTOR_SIZE && r in CleanRecords(raw, p, poolId)
    ensures k < |Analysis(raw, poolId).value| && Analysis(raw, poolId).value[k].token == r.item.token
  {
    hide Newest, Tokens, Wrapping, ScanSector, SectorOf;
    var all := PoolRecords(raw, poolId);
    RecordsOfSector(raw, |raw| / SECTOR_SIZE, p, poolId);
    TokensHaveRecords(all, Wrapping(all), r.item.token);
    WinnerTokens(all, Wrapping(all));
    assert r in all;
    k :| 0 <= k < |Tokens(all)| && Tokens(all)[k] == r.item.token;
  }

  // ---------- errors the CRC catches ----------

  /** The two differ, but only within 16 consecutive bits, counted least significant bit first. */
  ghost predicate BurstOnly(good: seq<Byte>, bad: seq<Byte>) {
    |good| == |bad| && good != bad && exists w: nat :: SameOutside(good, bad, w)
  }

  ghost predicate SameOutside(good: seq<Byte>, bad: seq<Byte>, w: nat)
    requires |good| == |bad|
  {
    forall q :: 0 <= q < 8 * |good| && !(w <= q < w + 16) ==> Bits(good)[q] == Bits(bad)[q]
  }

  /** Errors the CRC always catches: a burst, or an odd number of flipped bits anywhere. */
  ghost predicate Catchable(good: seq<Byte>, bad: seq<Byte>) {
    |good| == |bad| && (BurstOnly(good, bad) || OddFlips(good, bad))
  }

  /** A record whose CRC-covered bytes suffer such an error, its two length bytes excepted. */
  ghost predicate HitAtRecord(good: seq<Byte>, bad: seq<Byte>) {
    && |good| == |bad| && RecordPresent(good) && RecordIntact(good)
    && good[0] == bad[0] && good[1] == bad[1] && good[2] == bad[2] && good[5] == bad[5]
    && Catchable(good[2..RecordEnd(good)], bad[2..RecordEnd(good)])
  }

  /** The same for a record further on in the page, everything before it untouched. */
  ghost predicate HitInRecord(good: seq<Byte>, bad: seq<Byte>, at: nat) {
    && |good| == |bad| && StartsAt(good, at) && at <= |good|
    && good[..at] == bad[..at] && HitAtRecord(good[at..], bad[at..])
  }

  lemma ErrorChangesCrc(good: seq<Byte>, bad: seq<Byte>)
    requires Catchable(good, bad)
    ensures Crc16(good) != Crc16(bad)
  {
    hide Bits, Crc16, OddFlips;
    if OddFlips(good, bad) {
      OddFlipsChangeCrc(good, bad);
    } else {
      var w: nat :| SameOutside(good, bad, w);
      BurstChangesCrc(good, bad, w);
    }
  }

  lemma HitAtStart(good: seq<Byte>, bad: seq<Byte>)
    requires HitAtRecord(good, bad)
    ensures RecordPresent(bad) && !RecordIntact(bad)
  {
    hide Bits, Crc16, OddFlips, SameOutside;
    var end := RecordEnd(good);
    ErrorChangesCrc(good[2..end], bad[2..end]);
  }

  lemma {:induction false} HitIsRefused(good: seq<Byte>, bad: seq<Byte>, at: nat, poolId: int)
    requires HitInRecord(good, bad, at)
    ensures ParseRecords(bad, poolId) == None
    decreases |good|
  {
    hide HitAtRecord, RecordIntact, RecordPresent, RecordEnd, AlignUp;
    if at == 0 {
      assert good[0..] == good && bad[0..] == bad;
      HitAtStart(good, bad);
    } else {
      var span := AlignUp(RecordEnd(good));
      SameStart(good, bad, at);
      assert good[span..][at - span..] == good[at..] && bad[span..][at - span..] == bad[at..];
      assert good[span..][..at - span] == good[..at][span..] && bad[span..][..at - span] == bad[..at][span..];
      HitIsRefused(good[span..], bad[span..], at - span, poolId);
    }
  }

  lemma SameStart(good: seq<Byte>, bad: seq<Byte>, n: nat)
    requires RecordPresent(good) && RecordIntact(good) && AlignUp(RecordEnd(good)) <= n <= |good| == |bad|
    requires good[..n] == bad[..n]
    ensures RecordPresent(bad) && RecordEnd(bad) == RecordEnd(good) && RecordIntact(bad)
    ensures AfterRecord(good) == good[AlignUp(RecordEnd(good))..] && AfterRecord(bad) == bad[AlignUp(RecordEnd(good))..]
  {
    hide Crc16, AlignUp;
    var end := RecordEnd(good);
    assert good[..n][0] == bad[..n][0] && good[..n][1] == bad[..n][1] && good[..n][2] == bad[..n][2];
    assert good[..n][5] == bad[..n][5];
    assert good == good[..n] + good[n..] && bad == bad[..n] + bad[n..];
    assert good[2..end] == good[..n][2..end];
    assert bad[2..end] == bad[..n][2..end];
  }

  /** A sector with such an error inside one record. */
  ghost predicate HitInSector(good: seq<Byte>, bad: seq<Byte>, g: nat, at: nat)
    requires |good| == |bad| == SECTOR_SIZE && g < PAGES_PER_SECTOR
  {
    && HitInRecord(RecordArea(PageOf(good, g)), RecordArea(PageOf(bad, g)), at)
    && PageOf(good, g)[..SECTOR_HEADER_SIZE] == PageOf(bad, g)[..SECTOR_HEADER_SIZE]
    && PageOf(good, 1 - g) == PageOf(bad, 1 - g)
  }

  /** The analyser rejects a valid sector with such an error. */
  lemma HitSectorIsRejected(good: seq<Byte>, bad: seq<Byte>, g: nat, at: nat, poolId: int)
    requires |good| == |bad| == SECTOR_SIZE && g < PAGES_PER_SECTOR
    requires ScanSector(good, poolId).Valid? && HitInSector(good, bad, g, at)
    ensures ScanSector(bad, poolId) == Corrupt
  {
    hide ParseRecords, HitInRecord, HeaderReplicated, PageOf, RecordArea;
    HitIsRefused(RecordArea(PageOf(good, g)), RecordArea(PageOf(bad, g)), at, poolId);
    SameHeaders(good, bad, g);
    PageParse(PageOf(bad, g), poolId);
    if g == 0 {
      assert ParsePage(PageOf(bad, 0), poolId) == None;
    } else {
      assert ParsePage(PageOf(bad, 1), poolId) == None;
    }
  }

  lemma PageParse(page: seq<Byte>, poolId: int)
    requires |page| == PAGE_SIZE
    ensures ParsePage(page, poolId) == ParseRecords(RecordArea(page), poolId)
  {}

  lemma SameHeaders(good: seq<Byte>, bad: seq<Byte>, g: nat)
    requires |good| == |bad| == SECTOR_SIZE && g < PAGES_PER_SECTOR
    requires PageOf(good, g)[..SECTOR_HEADER_SIZE] == PageOf(bad, g)[..SECTOR_HEADER_SIZE]
    requires PageOf(good, 1 - g) == PageOf(bad, 1 - g)
    ensures good[0] == bad[0] && good[3] == bad[3] && HeaderReplicated(good) == HeaderReplicated(bad)
  {
    hide PageOf;
    FirstBytes(good);
    FirstBytes(bad);
    FourOfMany(PageOf(good, g));
    FourOfMany(PageOf(bad, g));
    if g == 0 {
      assert good[..4] == bad[..4];
    } else {
      assert good[512..516] == bad[512..516];
    }
    assert good[0] == good[..4][0] && bad[0] == bad[..4][0] && good[3] == good[..4][3] && bad[3] == bad[..4][3];
  }

  lemma FirstBytes(sector: seq<Byte>)
    requires |sector| == SECTOR_SIZE
    ensures PageOf(sector, 0)[..4] == sector[..4] && PageOf(sector, 1)[..4] == sector[512..516]
  {}

  lemma FourOfMany(page: seq<Byte>)
    requires |page| == PAGE_SIZE
    ensures page[..4] == page[..SECTOR_HEADER_SIZE][..4]
  {}

  /** Some record of the sector is hit. */
  ghost predicate Hit(good: seq<Byte>, bad: seq<Byte>)
    requires |good| == |bad| == SECTOR_SIZE
  {
    exists g: nat, at: nat :: g < PAGES_PER_SECTOR && HitInSector(good, bad, g, at)
  }

  lemma ZerosHaveNoRecords(bad: seq<Byte>)
    requires |bad| == SECTOR_SIZE
    ensures !Hit(Zeros(SECTOR_SIZE), bad)
  {
    forall g: nat, at: nat | g < PAGES_PER_SECTOR ensures !HitInSector(Zeros(SECTOR_SIZE), bad, g, at) {
      var area := RecordArea(PageOf(Zeros(SECTOR_SIZE), g));
      assert area[2] == 0;
    }
  }

  lemma HitOnImageSector(plan: seq<Sector>, stride: nat, copies: nat, p: nat, bad: seq<Byte>, poolId: int)
    requires AllHold(plan) && |plan| <= 256 && |bad| == SECTOR_SIZE
    requires Hit(PhysicalBytes(plan, stride, copies, p), bad)
    ensures ScanSector(bad, poolId) == Corrupt
  {
    hide HitInSector, ScanSector, LogicalRecords, LogicalBytes;
    var good := PhysicalBytes(plan, stride, copies, p);
    if Used(p, |plan|, stride, copies) {
      var g: nat, at: nat :| g < PAGES_PER_SECTOR && HitInSector(good, bad, g, at);
      LogicalScan(plan, p % stride, poolId);
      HitSectorIsRejected(good, bad, g, at, poolId);
    } else {
      ZerosHaveNoRecords(bad);
    }
  }

  /** Such errors in any number of sectors are masked as long as each logical sector keeps an untouched copy. */
  lemma HitsAreMasked(plan: seq<Sector>, raw: seq<Byte>, damaged: seq<Byte>,
                        stride: nat, copies: nat, sectors: nat, poolId: int)
    requires IsImage(raw, plan, stride, copies, sectors) && copies >= 1 && |damaged| == |raw|
    requires forall p :: 0 <= p < sectors ==>
      SectorOf(damaged, p) == SectorOf(raw, p) || Hit(SectorOf(raw, p), SectorOf(damaged, p))
    requires forall l :: 0 <= l < |plan| ==> CopySurvives(raw, damaged, l, stride, copies, sectors)
    ensures Analysis(raw, poolId).Ok? && Analysis(damaged, poolId).Ok?
    ensures SameItems(Analysis(damaged, poolId).value, Analysis(raw, poolId).value)
  {
    hide Hit, CopySurvives, SectorOf, ScanSector, Analysis, AllHold, PhysicalBytes;
    forall p | 0 <= p < sectors
      ensures SectorOf(damaged, p) == SectorOf(raw, p) || !ScanSector(SectorOf(damaged, p), poolId).Valid?
    {
      if SectorOf(damaged, p) != SectorOf(raw, p) {
        assert SectorOf(raw, p) == PhysicalBytes(plan, stride, copies, p);
        HitOnImageSector(plan, stride, copies, p, SectorOf(damaged, p), poolId);
      }
    }
    DamageIsMasked(plan, raw, damaged, stride, copies, sectors, poolId);
  }
}
