/** The analyser in terms of the bytes it reads: which sectors count, where their records lie, and what comes out. */
module NvmRaw {
  import opened Bytes
  import opened Crc
  import opened NvmFormat
  import opened NvmAnalysis
  import opened NvmNewest
  import opened NvmRecovery
  import opened NvmIntegrity
  import opened Results

  // ---------- records of a page ----------

  /** Two bytes as a number, the low one first. */
  function RawTwo(page: seq<Byte>, i: nat): (n: nat)
    requires i + 1 < |page|
    ensures n < 65536
  {
    var low: nat, high: nat := page[i], page[i + 1];
    low + 256 * high
  }

  /** End of the record at offset at. */
  function RawEnd(page: seq<Byte>, at: nat): (end: nat)
    requires |page| == 512
    ensures end >= at + 8
  {
    if at + 8 > 512 then at + 8 else at + 8 + page[at + 2] + page[at + 5]
  }

  /** An intact record at offset at: a token length, no byte beyond the page, and the CRC of bytes 2 to its end. */
  predicate RawRecord(page: seq<Byte>, at: nat)
    requires |page| == 512
  {
    && at + 8 <= 512 && page[at + 2] != 0 && RawEnd(page, at) <= 512
    && RawTwo(page, at) == Crc16(page[at + 2..RawEnd(page, at)])
  }

  /** No record at offset at: no room for a record header, or token length 0. */
  predicate RawStop(page: seq<Byte>, at: nat)
    requires |page| == 512
  {
    at + 8 > 512 || page[at + 2] == 0
  }

  /** Offsets of intact records, each at the first multiple of 16 behind the one before, and of the place they stop. */
  predicate RawChain(page: seq<Byte>, at: seq<nat>)
    requires |page| == 512
  {
    at != [] && RawStop(page, at[|at| - 1]) && forall i :: 0 <= i < |at| - 1 ==> Link(page, at, i)
  }

  predicate Link(page: seq<Byte>, at: seq<nat>, i: nat)
    requires |page| == 512 && i + 1 < |at|
  {
    RawRecord(page, at[i]) && at[i + 1] % 16 == 0 && RawEnd(page, at[i]) <= at[i + 1] < RawEnd(page, at[i]) + 16
  }

  /** What stands in the record at offset at. */
  function RawContent(page: seq<Byte>, at: nat, poolId: int): Record
    requires |page| == 512 && at + 8 <= 512 && RawEnd(page, at) <= 512
  {
    var data := at + 8 + page[at + 2];
    Record(RawTwo(page, at + 6),
           NvmItem(poolId, page[at + 4], page[at + 8..data], page[data..RawEnd(page, at)]))
  }

  function RawContents(page: seq<Byte>, at: seq<nat>, poolId: int): (rs: seq<Record>)
    requires |page| == 512 && RawChain(page, at)
    ensures |rs| == |at| - 1
    ensures forall i :: 0 <= i < |rs| ==> Link(page, at, i) && rs[i] == RawContent(page, at[i], poolId)
  {
    assert forall i :: 0 <= i < |at| - 1 ==> Link(page, at, i);
    seq(|at| - 1, i requires 0 <= i < |at| - 1 && Link(page, at, i) => RawContent(page, at[i], poolId))
  }

  lemma ThreeAgree(page: seq<Byte>, at: nat, poolId: int)
    requires |page| == 512 && at % 16 == 0 && at + 8 <= 512 && page[at + 2] != 0
    ensures RecordPresent(Tail(page, at)) && (RecordIntact(Tail(page, at)) <==> RawRecord(page, at))
    ensures RawRecord(page, at) ==>
      && DecodeRecord(Tail(page, at), poolId) == RawContent(page, at, poolId)
      && AfterRecord(Tail(page, at)) == Tail(page, AlignUp(RawEnd(page, at)))
  {
    hide Crc16, Tail, AfterRecord, RecordEnd, RecordPresent, RecordIntact, DecodeRecord, AlignUp;
    RecordAt(page, at, poolId);
    if EndAt(page, at) <= PAGE_SIZE {
      NextRecordAt(page, at);
    }
  }

  /** From a multiple of 16 on, a chain of records is what the parser finds. */
  lemma {:induction false} ChainParses(page: seq<Byte>, at: seq<nat>, poolId: int)
    requires |page| == 512 && RawChain(page, at) && at[0] % 16 == 0
    ensures ParseRecords(Tail(page, at[0]), poolId) == Some(RawContents(page, at, poolId))
    decreases |at|
  {
    hide Crc16, Tail, AfterRecord, RecordEnd, RecordPresent, RecordIntact, DecodeRecord, RawRecord, RawEnd, RawContent;
    assert |at| > 1 ==> Link(page, at, 0);
    if |at| == 1 {
      NoRecordAt(page, at[0], poolId);
    } else {
      RawFits(page, at[0]);
      ThreeAgree(page, at[0], poolId);
      NextIs(RawEnd(page, at[0]), at[1]);
      ChainGoesOn(page, at);
      ChainParses(page, at[1..], poolId);
      assert RawContents(page, at, poolId) == [RawContent(page, at[0], poolId)] + RawContents(page, at[1..], poolId);
    }
  }

  lemma RawFits(page: seq<Byte>, at: nat)
    requires |page| == 512 && RawRecord(page, at)
    ensures at + 8 <= RawEnd(page, at) <= 512 && page[at + 2] != 0
  {}

  lemma NextIs(end: nat, next: nat)
    requires next % 16 == 0 && end <= next < end + 16
    ensures next == AlignUp(end)
  {}

  lemma ChainGoesOn(page: seq<Byte>, at: seq<nat>)
    requires |page| == 512 && RawChain(page, at) && |at| > 1
    ensures RawChain(page, at[1..]) && at[1] % 16 == 0 && RawRecord(page, at[0])
  {
    hide RawRecord, RawStop, RawEnd;
    var more := at[1..];
    assert Link(page, at, 0);
    forall i | 0 <= i < |more| - 1 ensures Link(page, more, i) {
      assert Link(page, at, i + 1);
    }
  }

  /** And whatever the parser accepts is such a chain. */
  lemma {:induction false} ParsedIsChain(page: seq<Byte>, pos: nat, poolId: int) returns (at: seq<nat>)
    requires |page| == 512 && pos % 16 == 0 && ParseRecords(Tail(page, pos), poolId).Some?
    ensures RawChain(page, at) && at[0] == pos
    decreases 512 - pos
  {
    hide Crc16, Tail, AfterRecord, RecordEnd, RecordPresent, RecordIntact, DecodeRecord, RawEnd;
    if pos + 8 > 512 || page[pos + 2] == 0 {
      at := [pos];
    } else {
      ThreeAgree(page, pos, poolId);
      RawFits(page, pos);
      var next := AlignUp(RawEnd(page, pos));
      var more := ParsedIsChain(page, next, poolId);
      at := [pos] + more;
      ChainInFront(page, pos, more);
    }
  }

  lemma ChainInFront(page: seq<Byte>, pos: nat, more: seq<nat>)
    requires |page| == 512 && RawRecord(page, pos) && RawChain(page, more)
    requires more[0] % 16 == 0 && RawEnd(page, pos) <= more[0] < RawEnd(page, pos) + 16
    ensures RawChain(page, [pos] + more)
  {
    hide RawRecord, RawStop, RawEnd;
    var at := [pos] + more;
    forall i | 0 <= i < |at| - 1 ensures Link(page, at, i) {
      if i > 0 {
        assert Link(page, more, i - 1);
      }
    }
  }

  // ---------- sectors ----------

  /** Page g of physical sector p. */
  function RawPage(raw: seq<Byte>, p: nat, g: nat): (page: seq<Byte>)
    requires 1024 * p + 1024 <= |raw| && g < 2
    ensures |page| == 512
  {
    raw[1024 * p + 512 * g..1024 * p + 512 * g + 512]
  }

  /** A page whose records are all intact, from behind its header to where they stop. */
  ghost predicate RawIntact(page: seq<Byte>)
    requires |page| == 512
  {
    exists at: seq<nat> :: IntactBy(page, at)
  }

  predicate IntactBy(page: seq<Byte>, at: seq<nat>)
    requires |page| == 512
  {
    RawChain(page, at) && at[0] == 16
  }

  /** A sector in use: marked valid, not pending erase, its header repeated on the second page, all records intact. */
  ghost predicate RawValid(raw: seq<Byte>, p: nat)
    requires 1024 * p + 1024 <= |raw|
  {
    && RawPage(raw, p, 0)[0] == 0xC3 && RawPage(raw, p, 0)[3] != 0xEE
    && RawPage(raw, p, 0)[..4] == RawPage(raw, p, 1)[..4]
    && RawIntact(RawPage(raw, p, 0)) && RawIntact(RawPage(raw, p, 1))
  }

  /** One of the records of a sector in use, by sector, page and offset. */
  ghost predicate HasRecord(raw: seq<Byte>, p: nat, g: nat, at: nat) {
    1024 * p + 1024 <= |raw| && g < 2 && RawValid(raw, p) && InPageAt(RawPage(raw, p, g), at)
  }

  /** One of the records of an intact page. */
  ghost predicate InPageAt(page: seq<Byte>, at: nat)
    requires |page| == 512
  {
    exists chain: seq<nat> :: IntactBy(page, chain) && at in chain[..|chain| - 1]
  }

  lemma InPageIsIntact(page: seq<Byte>, at: nat)
    requires |page| == 512 && InPageAt(page, at)
    ensures RawRecord(page, at) && 16 <= at && at % 16 == 0
  {
    hide RawRecord, RawEnd;
    var chain: seq<nat> :| IntactBy(page, chain) && at in chain[..|chain| - 1];
    var i :| 0 <= i < |chain| - 1 && chain[i] == at;
    assert Link(page, chain, i);
    ChainAscends(page, chain, i);
  }

  lemma {:induction false} ChainAscends(page: seq<Byte>, at: seq<nat>, i: nat)
    requires |page| == 512 && RawChain(page, at) && at[0] % 16 == 0 && i < |at|
    ensures at[0] <= at[i] && at[i] % 16 == 0
  {
    hide Crc16;
    if i > 0 {
      ChainAscends(page, at, i - 1);
      assert Link(page, at, i - 1);
    }
  }

  lemma PagesAre(raw: seq<Byte>, p: nat)
    requires 1024 * p + 1024 <= |raw|
    ensures PageOf(SectorOf(raw, p), 0) == RawPage(raw, p, 0) && PageOf(SectorOf(raw, p), 1) == RawPage(raw, p, 1)
  {
    SliceOfSlice(raw, 1024 * p, 1024 * p + 1024, 0, 512);
    SliceOfSlice(raw, 1024 * p, 1024 * p + 1024, 512, 1024);
  }

  /** The parser accepts a page exactly when it is intact, and then finds the records of any chain of it. */
  lemma ParsePageIs(page: seq<Byte>, poolId: int)
    requires |page| == 512
    ensures ParsePage(page, poolId).Some? <==> RawIntact(page)
    ensures forall at: seq<nat> :: IntactBy(page, at) ==> ParsePage(page, poolId) == Some(RawContents(page, at, poolId))
  {
    hide ParseRecords, Tail, RawChain;
    FirstTail(page);
    forall at: seq<nat> | IntactBy(page, at)
      ensures ParsePage(page, poolId) == Some(RawContents(page, at, poolId))
    {
      ChainParses(page, at, poolId);
    }
    if ParsePage(page, poolId).Some? {
      var at := ParsedIsChain(page, 16, poolId);
      assert IntactBy(page, at);
    }
  }

  /** A sector is left out exactly when it is not marked valid or pending erase, and used exactly when it is in use. */
  lemma ScanIs(raw: seq<Byte>, p: nat, poolId: int)
    requires 1024 * p + 1024 <= |raw|
    ensures var scan := ScanSector(SectorOf(raw, p), poolId);
      var first := RawPage(raw, p, 0);
      && (scan.Unused? <==> first[0] != 0xC3 || first[3] == 0xEE)
      && (scan.Valid? <==> RawValid(raw, p))
    ensures var scan := ScanSector(SectorOf(raw, p), poolId);
      var first, second := ParsePage(RawPage(raw, p, 0), poolId), ParsePage(RawPage(raw, p, 1), poolId);
      scan.Valid? ==> first.Some? && second.Some? && scan.records == first.value + second.value
  {
    hide ParsePage, RawIntact, RawPage, SectorOf;
    PagesAre(raw, p);
    ParsePageIs(RawPage(raw, p, 0), poolId);
    ParsePageIs(RawPage(raw, p, 1), poolId);
    HeaderOf(SectorOf(raw, p));
  }

  lemma HeaderOf(sector: seq<Byte>)
    requires |sector| == SECTOR_SIZE
    ensures sector[0] == PageOf(sector, 0)[0] && sector[1] == PageOf(sector, 0)[1] && sector[3] == PageOf(sector, 0)[3]
    ensures HeaderReplicated(sector) <==> PageOf(sector, 0)[..4] == PageOf(sector, 1)[..4]
  {
    assert PageOf(sector, 0)[..4] == sector[..4] && PageOf(sector, 1)[..4] == sector[512..516];
  }

  // ---------- the records of an image ----------

  function RecordOf(raw: seq<Byte>, p: nat, g: nat, at: nat, poolId: int): Record
    requires 1024 * p + 1024 <= |raw| && g < 2 && at + 8 <= 512 && RawEnd(RawPage(raw, p, g), at) <= 512
  {
    RawContent(RawPage(raw, p, g), at, poolId)
  }

  /** A parsed record has its place in the page. */
  lemma PlaceOfRecord(page: seq<Byte>, r: Record, poolId: int) returns (at: nat)
    requires |page| == 512 && ParsePage(page, poolId).Some? && r in ParsePage(page, poolId).value
    ensures InPageAt(page, at) && RawRecord(page, at) && r == RawContent(page, at, poolId)
  {
    hide ParsePage, RawChain, RawRecord, RawContent, RawEnd;
    ParsePageIs(page, poolId);
    var chain: seq<nat> :| IntactBy(page, chain);
    var rs := RawContents(page, chain, poolId);
    var i :| 0 <= i < |rs| && rs[i] == r;
    at := chain[i];
    assert chain[..|chain| - 1][i] == at;
  }

  lemma RecordOfPlace(page: seq<Byte>, at: nat, poolId: int)
    requires |page| == 512 && InPageAt(page, at)
    ensures RawRecord(page, at) && 16 <= at && at % 16 == 0
    ensures ParsePage(page, poolId).Some? && RawContent(page, at, poolId) in ParsePage(page, poolId).value
  {
    hide ParsePage, RawChain, RawRecord, RawContent, RawEnd;
    InPageIsIntact(page, at);
    ParsePageIs(page, poolId);
    var chain: seq<nat> :| IntactBy(page, chain) && at in chain[..|chain| - 1];
    var rs := RawContents(page, chain, poolId);
    var i :| 0 <= i < |chain| - 1 && chain[i] == at;
    assert rs[i] in rs;
  }

  /** Every record the analyser collects stands in the bytes of a sector in use. */
  lemma CollectedIsThere(raw: seq<Byte>, r: Record, poolId: int) returns (p: nat, g: nat, at: nat)
    requires r in PoolRecords(raw, poolId)
    ensures HasRecord(raw, p, g, at) && RawRecord(RawPage(raw, p, g), at) && r == RecordOf(raw, p, g, at, poolId)
  {
    hide ParsePage, RawPage, RawRecord, RawContent, RawEnd, ScanSector, SectorOf, InPageAt, RawValid;
    p := RecordSector(raw, |raw| / SECTOR_SIZE, r, poolId);
    ScanIs(raw, p, poolId);
    if r in ParsePage(RawPage(raw, p, 0), poolId).value {
      g := 0;
    } else {
      g := 1;
    }
    at := PlaceOfRecord(RawPage(raw, p, g), r, poolId);
  }

  /** And every record of a sector in use is collected. */
  lemma ThereIsCollected(raw: seq<Byte>, p: nat, g: nat, at: nat, poolId: int)
    requires HasRecord(raw, p, g, at)
    ensures RawRecord(RawPage(raw, p, g), at) && RecordOf(raw, p, g, at, poolId) in PoolRecords(raw, poolId)
  {
    hide ParsePage, RawPage, RawRecord, RawContent, RawEnd, ScanSector, SectorOf, InPageAt, RawValid, AllRecords;
    RecordOfPlace(RawPage(raw, p, g), at, poolId);
    ScanIs(raw, p, poolId);
    RecordsOfSector(raw, |raw| / SECTOR_SIZE, p, poolId);
  }

  // ---------- what the analysis returns ----------

  /** Some record of a sector in use has a number above lo and at most hi. */
  ghost predicate NumberBetween(raw: seq<Byte>, lo: nat, hi: nat) {
    exists p: nat, g: nat, at: nat :: HasRecord(raw, p, g, at) && lo < NumberAt(raw, p, g, at) <= hi
  }

  function NumberAt(raw: seq<Byte>, p: nat, g: nat, at: nat): nat {
    if 1024 * p + 1024 <= |raw| && g < 2 && at + 8 <= 512 then RawTwo(RawPage(raw, p, g), at + 6) else 0
  }

  /** Numbers are read as wrapped around: some lie in the high quarter, none in the middle half. */
  ghost predicate ReadAsWrapped(raw: seq<Byte>) {
    NumberBetween(raw, 24575, 65535) && !NumberBetween(raw, 8191, 24575)
  }

  /** The number as it is compared. */
  ghost function Age(raw: seq<Byte>, n: nat): nat {
    if ReadAsWrapped(raw) && n <= 8191 then n + 32768 else n
  }

  lemma FlagsAre(raw: seq<Byte>, poolId: int)
    ensures HasHigh(PoolRecords(raw, poolId)) <==> NumberBetween(raw, 24575, 65535)
    ensures HasMiddle(PoolRecords(raw, poolId)) <==> NumberBetween(raw, 8191, 24575)
    ensures forall r :: r in PoolRecords(raw, poolId) ==>
      Extended(r.seqNo, Wrapping(PoolRecords(raw, poolId))) == Age(raw, r.seqNo)
  {
    BetweenIs(raw, 24575, 65535, poolId);
    BetweenIs(raw, 8191, 24575, poolId);
    NumbersAreWords(raw, poolId);
    hide NumberBetween, PoolRecords;
    var rs := PoolRecords(raw, poolId);
    assert HasHigh(rs) <==> SomeBetween(rs, 24575, 65535) by {
      assert forall k :: 0 <= k < |rs| ==> rs[k] in rs;
    }
    assert HasMiddle(rs) <==> SomeBetween(rs, 8191, 24575);
  }

  ghost predicate SomeBetween(rs: seq<Record>, lo: nat, hi: nat) {
    exists k :: 0 <= k < |rs| && lo < rs[k].seqNo <= hi
  }

  lemma NumbersAreWords(raw: seq<Byte>, poolId: int)
    ensures forall r :: r in PoolRecords(raw, poolId) ==> r.seqNo < 65536
  {
    hide PoolRecords;
    forall r | r in PoolRecords(raw, poolId) ensures r.seqNo < 65536 {
      var p, g, at := CollectedIsThere(raw, r, poolId);
    }
  }

  lemma BetweenIs(raw: seq<Byte>, lo: nat, hi: nat, poolId: int)
    ensures SomeBetween(PoolRecords(raw, poolId), lo, hi) <==> NumberBetween(raw, lo, hi)
  {
    hide PoolRecords, HasRecord, RawPage;
    var rs := PoolRecords(raw, poolId);
    if SomeBetween(rs, lo, hi) {
      var k :| 0 <= k < |rs| && lo < rs[k].seqNo <= hi;
      var p, g, at := CollectedIsThere(raw, rs[k], poolId);
      RecordFits(raw, p, g, at);
      assert NumberAt(raw, p, g, at) == rs[k].seqNo;
    }
    if NumberBetween(raw, lo, hi) {
      var p: nat, g: nat, at: nat :| HasRecord(raw, p, g, at) && lo < NumberAt(raw, p, g, at) <= hi;
      ThereIsCollected(raw, p, g, at, poolId);
      RecordFits(raw, p, g, at);
      var k :| 0 <= k < |rs| && rs[k] == RecordOf(raw, p, g, at, poolId);
    }
  }

  lemma RecordFits(raw: seq<Byte>, p: nat, g: nat, at: nat)
    requires HasRecord(raw, p, g, at)
    ensures 1024 * p + 1024 <= |raw| && g < 2 && at + 8 <= RawEnd(RawPage(raw, p, g), at) <= 512
    ensures RawRecord(RawPage(raw, p, g), at) && 16 <= at && at % 16 == 0
  {
    hide RawPage, RawValid, InPageAt;
    InPageIsIntact(RawPage(raw, p, g), at);
    RawFits(RawPage(raw, p, g), at);
  }

  /** The tool gives up exactly when a number of the high quarter and one of the middle half are there. */
  lemma WhenAmbiguous(raw: seq<Byte>, poolId: int)
    ensures Analysis(raw, poolId).Err? <==> NumberBetween(raw, 24575, 65535) && NumberBetween(raw, 8191, 24575)
  {
    hide PoolRecords, NumberBetween, Winners;
    FlagsAre(raw, poolId);
  }

  /** Two records of sectors in use hold the same token. */
  ghost predicate SameToken(raw: seq<Byte>, p: nat, g: nat, at: nat, q: nat, h: nat, b: nat)
    requires HasRecord(raw, p, g, at) && RawRecord(RawPage(raw, p, g), at)
  {
    && HasRecord(raw, q, h, b) && RawRecord(RawPage(raw, q, h), b)
    && RecordOf(raw, q, h, b, 0).item.token == RecordOf(raw, p, g, at, 0).item.token
  }

  /** Soundness in bytes: a returned item is what stands in a record of a sector in use, and no record of its token there
      counts as newer. */
  lemma ReturnedStandsInBytes(raw: seq<Byte>, poolId: int, k: nat) returns (p: nat, g: nat, at: nat)
    requires Analysis(raw, poolId).Ok? && k < |Analysis(raw, poolId).value|
    ensures HasRecord(raw, p, g, at) && RawRecord(RawPage(raw, p, g), at)
    ensures Analysis(raw, poolId).value[k] == RecordOf(raw, p, g, at, poolId).item
    ensures forall q: nat, h: nat, b: nat ::
      SameToken(raw, p, g, at, q, h, b) ==> Age(raw, NumberAt(raw, q, h, b)) <= Age(raw, NumberAt(raw, p, g, at))
  {
    hide PoolRecords, HasRecord, RawPage, Conclude, Wrapping, Extended, Age, RawRecord;
    var rs := PoolRecords(raw, poolId);
    var r := ReturnedRecord(rs, k);
    p, g, at := CollectedIsThere(raw, r, poolId);
    RecordFits(raw, p, g, at);
    FlagsAre(raw, poolId);
    forall q: nat, h: nat, b: nat | SameToken(raw, p, g, at, q, h, b)
      ensures Age(raw, NumberAt(raw, q, h, b)) <= Age(raw, NumberAt(raw, p, g, at))
    {
      ThereIsCollected(raw, q, h, b, poolId);
      RecordFits(raw, q, h, b);
    }
  }

  /** Completeness in bytes: the token of every record of every sector in use is returned, exactly once. */
  lemma StandingTokenIsReturned(raw: seq<Byte>, poolId: int, p: nat, g: nat, at: nat) returns (k: nat)
    requires Analysis(raw, poolId).Ok? && HasRecord(raw, p, g, at)
    ensures RawRecord(RawPage(raw, p, g), at)
    ensures k < |Analysis(raw, poolId).value|
    ensures Analysis(raw, poolId).value[k].token == RecordOf(raw, p, g, at, poolId).item.token
    ensures forall j :: 0 <= j < |Analysis(raw, poolId).value| && j != k ==>
      Analysis(raw, poolId).value[j].token != RecordOf(raw, p, g, at, poolId).item.token
  {
    hide PoolRecords, HasRecord, RawPage, Conclude, RawRecord, RawContent, RawEnd;
    RecordFits(raw, p, g, at);
    ThereIsCollected(raw, p, g, at, poolId);
    k := TokenOfRecord(PoolRecords(raw, poolId), RecordOf(raw, p, g, at, poolId));
  }

  lemma TokenOfRecord(rs: seq<Record>, r: Record) returns (k: nat)
    requires Conclude(rs).Ok? && r in rs
    ensures k < |Conclude(rs).value| && Conclude(rs).value[k].token == r.item.token
    ensures forall j :: 0 <= j < |Conclude(rs).value| && j != k ==> Conclude(rs).value[j].token != r.item.token
  {
    hide Wrapping, Tokens, Newest;
    TokensHaveRecords(rs, Wrapping(rs), r.item.token);
    var i :| 0 <= i < |rs| && rs[i] == r;
    k :| 0 <= k < |Tokens(rs)| && Tokens(rs)[k] == r.item.token;
    WinnerTokens(rs, Wrapping(rs));
  }
}
