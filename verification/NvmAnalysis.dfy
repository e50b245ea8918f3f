/** The analyser of an NVM pool: which sectors count, how sequence numbers compare, which record wins. */
module NvmAnalysis {
  import opened Bytes
  import opened Crc
  import opened NvmFormat
  import opened Results

  const MAX_MASKED := 0x7fff

  datatype AnalyzeError = AmbiguousSequenceNumbers

  // ---------- specification ----------

  function SectorOf(raw: seq<Byte>, p: nat): (s: seq<Byte>)
    requires (p + 1) * SECTOR_SIZE <= |raw|
    ensures |s| == SECTOR_SIZE
  {
    raw[p * SECTOR_SIZE..(p + 1) * SECTOR_SIZE]
  }

  function RecordsOf(scan: SectorScan): seq<Record> {
    if scan.Valid? then scan.records else []
  }

  /** The records of the first n physical sectors, sectors in order, damaged and unused ones left out. */
  function AllRecords(raw: seq<Byte>, n: nat, poolId: int): seq<Record>
    requires n * SECTOR_SIZE <= |raw|
  {
    if n == 0 then []
    else AllRecords(raw, n - 1, poolId) + RecordsOf(ScanSector(SectorOf(raw, n - 1), poolId))
  }

  predicate High(n: nat) { n > 3 * MAX_MASKED / 4 }

  predicate Middle(n: nat) { MAX_MASKED / 4 < n <= 3 * MAX_MASKED / 4 }

  predicate HasHigh(rs: seq<Record>) { exists k :: 0 <= k < |rs| && High(rs[k].seqNo) }

  predicate HasMiddle(rs: seq<Record>) { exists k :: 0 <= k < |rs| && Middle(rs[k].seqNo) }

  predicate Ambiguous(rs: seq<Record>) { HasHigh(rs) && HasMiddle(rs) }

  /** Whether low numbers are read as wrapped around. */
  predicate Wrapping(rs: seq<Record>) { HasHigh(rs) && !HasMiddle(rs) }

  function Extended(n: nat, wrapping: bool): nat {
    if wrapping && n <= MAX_MASKED / 4 then n + MAX_MASKED + 1 else n
  }

  /** The record that the cache holds for a token: the first one with the greatest extended number. */
  function Newest(rs: seq<Record>, wrapping: bool, token: seq<Byte>): Option<Record> {
    if rs == [] then None
    else
      var older := Newest(rs[..|rs| - 1], wrapping, token);
      var last := rs[|rs| - 1];
      if last.item.token != token then older
      else if older.None? || Extended(last.seqNo, wrapping) > Extended(older.value.seqNo, wrapping) then Some(last)
      else older
  }

  /** Tokens in the order in which they first occur: the order of the cache's keys. */
  function Tokens(rs: seq<Record>): seq<seq<Byte>> {
    if rs == [] then []
    else
      var before := Tokens(rs[..|rs| - 1]);
      var token := rs[|rs| - 1].item.token;
      if token in before then before else before + [token]
  }

  lemma {:induction false} TokensHaveRecords(rs: seq<Record>, wrapping: bool, token: seq<Byte>)
    ensures token in Tokens(rs) <==> Newest(rs, wrapping, token).Some?
    ensures token in Tokens(rs) <==> exists k :: 0 <= k < |rs| && rs[k].item.token == token
  {
    if rs != [] {
      TokensHaveRecords(rs[..|rs| - 1], wrapping, token);
    }
  }

  /** The list of items the cache ends up with. */
  function Winners(rs: seq<Record>, wrapping: bool): (items: seq<NvmItem>)
    ensures |items| == |Tokens(rs)|
    ensures forall k :: 0 <= k < |items| ==>
      Newest(rs, wrapping, Tokens(rs)[k]).Some? && items[k] == Newest(rs, wrapping, Tokens(rs)[k]).value.item
  {
    var tokens := Tokens(rs);
    assert forall k :: 0 <= k < |tokens| ==> Newest(rs, wrapping, tokens[k]).Some? by {
      forall k | 0 <= k < |tokens| ensures Newest(rs, wrapping, tokens[k]).Some? {
        TokensHaveRecords(rs, wrapping, tokens[k]);
      }
    }
    seq(|tokens|, k requires 0 <= k < |tokens| => Newest(rs, wrapping, tokens[k]).value.item)
  }

  function Conclude(rs: seq<Record>): Result<seq<NvmItem>, AnalyzeError> {
    if Ambiguous(rs) then Err(AmbiguousSequenceNumbers) else Ok(Winners(rs, Wrapping(rs)))
  }

  /** All records of a pool; bytes after the last full sector are not looked at. */
  function PoolRecords(raw: seq<Byte>, poolId: int): seq<Record> {
    AllRecords(raw, |raw| / SECTOR_SIZE, poolId)
  }

  function Analysis(raw: seq<Byte>, poolId: int): Result<seq<NvmItem>, AnalyzeError> {
    Conclude(PoolRecords(raw, poolId))
  }

  // ---------- the analyser ----------

  function Tail(page: seq<Byte>, pos: nat): seq<Byte> {
    if pos <= |page| then page[pos..] else []
  }

  function Prepend(done: seq<Record>, parsed: Option<seq<Record>>): Option<seq<Record>> {
    match parsed
    case None => None
    case Some(more) => Some(done + more)
  }

  lemma AlignedSpan(pos: nat, n: nat)
    requires pos % 16 == 0
    ensures AlignUp(pos + n) == pos + AlignUp(n)
  {}

  lemma NoRecordAt(page: seq<Byte>, pos: nat, poolId: int)
    requires |page| == PAGE_SIZE
    requires pos + RECORD_HEADER_SIZE > PAGE_SIZE || page[pos + 2] == 0
    ensures ParseRecords(Tail(page, pos), poolId) == Some([])
  {}

  function EndAt(page: seq<Byte>, pos: nat): (end: nat)
    requires |page| == PAGE_SIZE && pos + RECORD_HEADER_SIZE <= PAGE_SIZE
    ensures end >= pos + RECORD_HEADER_SIZE
  {
    pos + RECORD_HEADER_SIZE + page[pos + 2] + page[pos + 5]
  }

  /** A record of the page, in page offsets. */
  lemma RecordAt(page: seq<Byte>, pos: nat, poolId: int)
    requires |page| == PAGE_SIZE && pos + RECORD_HEADER_SIZE <= PAGE_SIZE && page[pos + 2] != 0
    ensures RecordPresent(Tail(page, pos)) && RecordEnd(Tail(page, pos)) == EndAt(page, pos) - pos
    ensures EndAt(page, pos) <= PAGE_SIZE <==> RecordEnd(Tail(page, pos)) <= |Tail(page, pos)|
    ensures EndAt(page, pos) > PAGE_SIZE ==> !RecordIntact(Tail(page, pos))
    ensures EndAt(page, pos) <= PAGE_SIZE ==>
      RecordIntact(Tail(page, pos)) ==
      (Num2([page[pos], page[pos + 1]]) == Crc16(page[pos + 2..EndAt(page, pos)]))
    ensures EndAt(page, pos) <= PAGE_SIZE ==>
      var dataStart: nat := pos + RECORD_HEADER_SIZE + page[pos + 2];
      DecodeRecord(Tail(page, pos), poolId) ==
      Record(Num2([page[pos + 6], page[pos + 7]]),
             NvmItem(poolId, page[pos + 4], page[pos + RECORD_HEADER_SIZE..dataStart],
                     page[dataStart..EndAt(page, pos)]))
  {
    hide Crc16, Num2;
    var tail, end := Tail(page, pos), EndAt(page, pos);
    var t: nat := page[pos + 2];
    assert tail == page[pos..PAGE_SIZE];
    if end <= PAGE_SIZE {
      SliceOfSlice(page, pos, PAGE_SIZE, 2, end - pos);
      SliceOfSlice(page, pos, PAGE_SIZE, RECORD_HEADER_SIZE, RECORD_HEADER_SIZE + t);
      SliceOfSlice(page, pos, PAGE_SIZE, RECORD_HEADER_SIZE + t, end - pos);
    }
  }

  lemma TailOfTail(page: seq<Byte>, pos: nat, span: nat)
    requires pos <= |page|
    ensures Tail(page, pos + span) == if span <= |Tail(page, pos)| then Tail(page, pos)[span..] else []
  {}

  lemma AfterRecordIs(rest: seq<Byte>, span: nat)
    requires RecordPresent(rest) && RecordEnd(rest) <= |rest| && span == AlignUp(RecordEnd(rest))
    ensures AfterRecord(rest) == if span <= |rest| then rest[span..] else []
  {
    hide AlignUp;
  }

  lemma NextRecordAt(page: seq<Byte>, pos: nat)
    requires |page| == PAGE_SIZE && pos + RECORD_HEADER_SIZE <= PAGE_SIZE && page[pos + 2] != 0
    requires pos % 16 == 0 && EndAt(page, pos) <= PAGE_SIZE
    ensures RecordPresent(Tail(page, pos)) && RecordEnd(Tail(page, pos)) <= |Tail(page, pos)|
    ensures AfterRecord(Tail(page, pos)) == Tail(page, AlignUp(EndAt(page, pos)))
  {
    hide AlignUp, Tail, AfterRecord, EndAt, RecordEnd, RecordPresent, RecordIntact, DecodeRecord, Crc16, Num2;
    var tail, end := Tail(page, pos), EndAt(page, pos);
    AlignedSpan(pos, end - pos);
    RecordAt(page, pos, 0);
    TailOfTail(page, pos, AlignUp(end - pos));
    AfterRecordIs(tail, AlignUp(end - pos));
  }

  function PageAt(raw: seq<Byte>, pageOffset: nat): (page: seq<Byte>)
    requires pageOffset + PAGE_SIZE <= |raw|
    ensures |page| == PAGE_SIZE
  {
    raw[pageOffset..pageOffset + PAGE_SIZE]
  }

  /** The same record, in offsets of the whole image. */
  lemma RecordInImage(raw: seq<Byte>, pageOffset: nat, pos: nat, poolId: int)
    requires pageOffset + PAGE_SIZE <= |raw| && pos + RECORD_HEADER_SIZE <= PAGE_SIZE
    ensures var page, at := PageAt(raw, pageOffset), pageOffset + pos;
      && page[pos] == raw[at] && page[pos + 1] == raw[at + 1] && page[pos + 2] == raw[at + 2]
      && page[pos + 4] == raw[at + 4] && page[pos + 5] == raw[at + 5]
      && page[pos + 6] == raw[at + 6] && page[pos + 7] == raw[at + 7]
    ensures var page, at, end := PageAt(raw, pageOffset), pageOffset + pos, EndAt(PageAt(raw, pageOffset), pos);
      end <= PAGE_SIZE ==>
      var dataStart: nat := pos + RECORD_HEADER_SIZE + page[pos + 2];
      && page[pos + 2..end] == raw[at + 2..pageOffset + end]
      && page[pos + RECORD_HEADER_SIZE..dataStart] == raw[at + RECORD_HEADER_SIZE..pageOffset + dataStart]
      && page[dataStart..end] == raw[pageOffset + dataStart..pageOffset + end]
  {
    var page, end := PageAt(raw, pageOffset), EndAt(PageAt(raw, pageOffset), pos);
    if end <= PAGE_SIZE {
      var dataStart: nat := pos + RECORD_HEADER_SIZE + page[pos + 2];
      SliceOfSlice(raw, pageOffset, pageOffset + PAGE_SIZE, pos + 2, end);
      SliceOfSlice(raw, pageOffset, pageOffset + PAGE_SIZE, pos + RECORD_HEADER_SIZE, dataStart);
      SliceOfSlice(raw, pageOffset, pageOffset + PAGE_SIZE, dataStart, end);
    }
  }

  /** Read the records of the page at pageOffset; corrupt when one runs over the page or fails its CRC. */
  method ReadPage(raw: seq<Byte>, pageOffset: nat, poolId: int) returns (corrupt: bool, items: seq<Record>)
    requires pageOffset + PAGE_SIZE <= |raw|
    ensures ParsePage(PageAt(raw, pageOffset), poolId) == if corrupt then None else Some(items)
  {
    hide ParseRecords, Crc16, AlignUp, DecodeRecord, RecordPresent, RecordEnd, RecordIntact, AfterRecord;
    hide Tail, PageAt, Prepend;
    ghost var page := PageAt(raw, pageOffset);
    corrupt, items := false, [];
    PrependNothing(ParsePage(page, poolId));
    FirstTail(page);
    var pos := SECTOR_HEADER_SIZE;
    while pos + RECORD_HEADER_SIZE <= PAGE_SIZE
      invariant pos % 16 == 0
      invariant ParsePage(page, poolId) == Prepend(items, ParseRecords(Tail(page, pos), poolId))
      decreases PAGE_SIZE - pos
    {
      var at := pageOffset + pos;
      RecordInImage(raw, pageOffset, pos, poolId);
      var crc := Num2([raw[at], raw[at + 1]]);
      var tokenLength := raw[at + 2];
      var updateFrequency := raw[at + 4];
      var dataLength := raw[at + 5];
      var sequenceNumber := Num2([raw[at + 6], raw[at + 7]]);
      if tokenLength == 0 {
        NoRecordAt(page, pos, poolId);
        PrependEnd(items);
        return;
      }
      var end := pos + RECORD_HEADER_SIZE + tokenLength + dataLength;
      RecordAt(page, pos, poolId);
      ParseUnfold(Tail(page, pos), items, poolId);
      if end > PAGE_SIZE {
        corrupt := true;
        return;
      }
      var token := raw[at + RECORD_HEADER_SIZE..at + RECORD_HEADER_SIZE + tokenLength];
      var data := raw[at + RECORD_HEADER_SIZE + tokenLength..pageOffset + end];
      var computed := ComputeCrc16(raw[at + 2..pageOffset + end]);
      if crc != computed {
        corrupt := true;
        return;
      }
      items := items + [Record(sequenceNumber, NvmItem(poolId, updateFrequency, token, data))];
      NextRecordAt(page, pos);
      pos := AlignUp(end);
    }
    NoRecordAt(page, pos, poolId);
    PrependEnd(items);
  }

  lemma FirstTail(page: seq<Byte>)
    requires |page| == PAGE_SIZE
    ensures Tail(page, SECTOR_HEADER_SIZE) == page[SECTOR_HEADER_SIZE..]
  {}

  lemma PrependEnd(done: seq<Record>)
    ensures Prepend(done, Some([])) == Some(done)
  {
    assert done + [] == done;
  }

  lemma PrependNothing(parsed: Option<seq<Record>>)
    ensures Prepend([], parsed) == parsed
  {
    if parsed.Some? {
      assert [] + parsed.value == parsed.value;
    }
  }

  lemma ParseUnfold(rest: seq<Byte>, done: seq<Record>, poolId: int)
    requires RecordPresent(rest)
    ensures !RecordIntact(rest) ==> Prepend(done, ParseRecords(rest, poolId)) == None
    ensures RecordIntact(rest) ==>
      Prepend(done, ParseRecords(rest, poolId)) ==
      Prepend(done + [DecodeRecord(rest, poolId)], ParseRecords(AfterRecord(rest), poolId))
  {
    hide Crc16, AfterRecord, DecodeRecord, Num2;
    if RecordIntact(rest) {
      PrependTwice(done, DecodeRecord(rest, poolId), ParseRecords(AfterRecord(rest), poolId));
    }
  }

  lemma PrependTwice(done: seq<Record>, r: Record, more: Option<seq<Record>>)
    ensures Prepend(done + [r], more) == Prepend(done, if more.None? then None else Some([r] + more.value))
  {
    if more.Some? {
      assert done + ([r] + more.value) == (done + [r]) + more.value;
    }
  }

  method ReadSector(raw: seq<Byte>, sectorOffset: nat, poolId: int) returns (scan: SectorScan)
    requires sectorOffset + SECTOR_SIZE <= |raw|
    ensures scan == ScanSector(raw[sectorOffset..sectorOffset + SECTOR_SIZE], poolId)
  {
    hide ParsePage, PageAt;
    ghost var sector := raw[sectorOffset..sectorOffset + SECTOR_SIZE];
    var validFlag, logicalSector := raw[sectorOffset], raw[sectorOffset + 1];
    var updateFrequency, eraseFlag := raw[sectorOffset + 2], raw[sectorOffset + 3];
    if validFlag != VALID_FLAG {
      return Unused;
    }
    if eraseFlag == ERASE_PENDING {
      return Unused;
    }
    for page := 0 to PAGES_PER_SECTOR
      invariant page == 2 ==> HeaderReplicated(sector)
    {
      var pageOffset := sectorOffset + page * PAGE_SIZE;
      if validFlag != raw[pageOffset] || logicalSector != raw[pageOffset + 1] ||
         updateFrequency != raw[pageOffset + 2] || eraseFlag != raw[pageOffset + 3]
      {
        HeaderBytes(sector);
        return Corrupt;
      }
      HeaderBytes(sector);
    }
    var sectorItems: seq<Record> := [];
    ghost var parsed: seq<seq<Record>> := [];
    for page := 0 to PAGES_PER_SECTOR
      invariant |parsed| == page
      invariant page > 0 ==> ParsePage(PageOf(sector, 0), poolId) == Some(parsed[0])
      invariant page > 1 ==> ParsePage(PageOf(sector, 1), poolId) == Some(parsed[1])
      invariant sectorItems == if page == 0 then [] else if page == 1 then parsed[0] else parsed[0] + parsed[1]
    {
      var pageOffset := sectorOffset + page * PAGE_SIZE;
      PageInImage(raw, sectorOffset, page);
      var corrupt, items := ReadPage(raw, pageOffset, poolId);
      if corrupt {
        return Corrupt;
      }
      sectorItems := sectorItems + items;
      parsed := parsed + [items];
    }
    scan := Valid(logicalSector, sectorItems);
  }

  lemma PageInImage(raw: seq<Byte>, sectorOffset: nat, page: nat)
    requires sectorOffset + SECTOR_SIZE <= |raw| && page < PAGES_PER_SECTOR
    ensures PageAt(raw, sectorOffset + page * PAGE_SIZE) == PageOf(raw[sectorOffset..sectorOffset + SECTOR_SIZE], page)
  {
    SliceOfSlice(raw, sectorOffset, sectorOffset + SECTOR_SIZE, page * PAGE_SIZE, (page + 1) * PAGE_SIZE);
  }

  lemma HeaderBytes(sector: seq<Byte>)
    requires |sector| == SECTOR_SIZE
    ensures HeaderReplicated(sector) <==>
      sector[0] == sector[512] && sector[1] == sector[513] && sector[2] == sector[514] && sector[3] == sector[515]
  {
    assert sector[512..516] == [sector[512], sector[513], sector[514], sector[515]];
    assert sector[..4] == [sector[0], sector[1], sector[2], sector[3]];
  }

  /** Decide how numbers compare; fails when the numbers allow neither reading. */
  method InterpretNumbers(rs: seq<Record>) returns (r: Result<bool, AnalyzeError>)
    ensures r == if Ambiguous(rs) then Err(AmbiguousSequenceNumbers) else Ok(Wrapping(rs))
  {
    var wrapping, nonWrapping := true, true;
    for k := 0 to |rs|
      invariant nonWrapping == !HasHigh(rs[..k])
      invariant wrapping == !HasMiddle(rs[..k])
    {
      var sequenceNumber := rs[k].seqNo;
      assert rs[..k + 1] == rs[..k] + [rs[k]];
      assert rs[..k + 1][k] == rs[k];
      if sequenceNumber > 3 * MAX_MASKED / 4 {
        nonWrapping := false;
      }
      if MAX_MASKED / 4 < sequenceNumber <= 3 * MAX_MASKED / 4 {
        wrapping := false;
      }
      assert forall j :: 0 <= j < k ==> rs[..k + 1][j] == rs[..k][j];
    }
    assert rs[..|rs|] == rs;
    if !wrapping && !nonWrapping {
      return Err(AmbiguousSequenceNumbers);
    }
    if nonWrapping {
      wrapping := false;
    }
    r := Ok(wrapping);
  }

  function Entry(r: Record, wrapping: bool): (nat, NvmItem) { (Extended(r.seqNo, wrapping), r.item) }

  /** What one more record does to the newest of each token, and to their order. */
  lemma OneMoreRecord(rs: seq<Record>, k: nat, wrapping: bool)
    requires k < |rs|
    ensures var older, last := rs[..k], rs[k];
      && Tokens(rs[..k + 1]) == (if last.item.token in Tokens(older) then Tokens(older)
                                 else Tokens(older) + [last.item.token])
      && (forall t :: t != last.item.token ==> Newest(rs[..k + 1], wrapping, t) == Newest(older, wrapping, t))
      && var kept := Newest(older, wrapping, last.item.token);
      Newest(rs[..k + 1], wrapping, last.item.token) ==
      if kept.None? || Extended(last.seqNo, wrapping) > Extended(kept.value.seqNo, wrapping) then Some(last) else kept
  {
    var done := rs[..k + 1];
    assert done[..|done| - 1] == rs[..k] && done[|done| - 1] == rs[k];
  }

  /** Keep the most recent record of each token; the dictionary lists tokens as they were first inserted. */
  method CacheNewest(rs: seq<Record>, wrapping: bool) returns (items: seq<NvmItem>)
    ensures items == Winners(rs, wrapping)
  {
    hide Newest, Tokens, Extended;
    var cache: map<seq<Byte>, (nat, NvmItem)> := map[];
    var keys: seq<seq<Byte>> := [];
    NoRecords();
    for k := 0 to |rs|
      invariant keys == Tokens(rs[..k])
      invariant forall t :: t in cache <==> t in keys
      invariant forall t :: t in cache ==> Newest(rs[..k], wrapping, t).Some?
      invariant forall t :: t in cache ==> cache[t] == Entry(Newest(rs[..k], wrapping, t).value, wrapping)
    {
      var item := rs[k].item;
      var ext := Extended(rs[k].seqNo, wrapping);
      TokensHaveRecords(rs[..k], wrapping, item.token);
      OneMoreRecord(rs, k, wrapping);
      if item.token !in cache {
        cache := cache[item.token := (ext, item)];
        keys := keys + [item.token];
      } else if ext > cache[item.token].0 {
        cache := cache[item.token := (ext, item)];
      }
    }
    assert rs[..|rs|] == rs;
    items := seq(|keys|, k requires 0 <= k < |keys| && keys[k] in cache => cache[keys[k]].1);
    assert items == Winners(rs, wrapping);
  }

  lemma NoRecords()
    ensures Tokens([]) == []
  {}

  /** Analyse one pool image. */
  method AnalyzePool(raw: seq<Byte>, poolId: int) returns (res: Result<seq<NvmItem>, AnalyzeError>)
    ensures res == Analysis(raw, poolId)
  {
    hide ScanSector, Newest, Tokens, Ambiguous, Wrapping;
    var allItems: seq<Record> := [];
    var physicalSectors := |raw| / SECTOR_SIZE;
    for p := 0 to physicalSectors
      invariant allItems == AllRecords(raw, p, poolId)
    {
      var scan := ReadSector(raw, p * SECTOR_SIZE, poolId);
      match scan {
        case Unused =>
        case Corrupt =>
        case Valid(_, sectorItems) => allItems := allItems + sectorItems;
      }
    }
    var interpreted := InterpretNumbers(allItems);
    match interpreted {
      case Err(e) => return Err(e);
      case Ok(wrapping) =>
        var items := CacheNewest(allItems, wrapping);
        return Ok(items);
    }
  }
}
