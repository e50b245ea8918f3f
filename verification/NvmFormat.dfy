/** The sub-paged flash format, version 2 (QPG6200): records, pages, sectors, and how each is parsed. */
module NvmFormat {
  import opened Bytes
  import opened Crc
  import opened Results

  const PAGE_SIZE := 512
  const PAGES_PER_SECTOR := 2
  const SECTOR_SIZE := PAGE_SIZE * PAGES_PER_SECTOR
  const SECTOR_HEADER_SIZE := 16
  const RECORD_HEADER_SIZE := 8
  const VALID_FLAG: Byte := 0xC3
  const ERASE_PENDING: Byte := 0xEE

  /** Round up to the write unit of 16 bytes. */
  function AlignUp(v: nat): (a: nat)
    ensures a % 16 == 0 && v <= a < v + 16
  {
    v + (16 - v) % 16
  }

  datatype NvmItem = NvmItem(poolId: int, updateFreq: Byte, token: seq<Byte>, data: seq<Byte>)

  /** An item with the sequence number it is stored under. */
  datatype Record = Record(seqNo: nat, item: NvmItem)

  // ---------- writing ----------

  /** The item fits the one-byte length fields and has a token. */
  predicate Storable(it: NvmItem) {
    1 <= |it.token| <= 255 && |it.data| <= 255
  }

  predicate AllStorable(rs: seq<Record>) {
    forall k :: 0 <= k < |rs| ==> Storable(rs[k].item)
  }

  function Length(it: NvmItem): (n: nat)
    ensures n >= RECORD_HEADER_SIZE
  {
    RECORD_HEADER_SIZE + |it.token| + |it.data|
  }

  /** Bytes a record takes up, with the padding to the next write unit. */
  function Cost(it: NvmItem): (c: nat)
    ensures c % 16 == 0 && Length(it) <= c < Length(it) + 16
  {
    AlignUp(Length(it))
  }

  /** The part of a record its CRC covers. */
  function Covered(r: Record): (bytes: seq<Byte>)
    requires Storable(r.item)
    ensures |bytes| == Length(r.item) - 2
  {
    [|r.item.token|, 0, r.item.updateFreq, |r.item.data|] + Le2(r.seqNo) + r.item.token + r.item.data
  }

  function EncodeRecord(r: Record): (bytes: seq<Byte>)
    requires Storable(r.item)
    ensures |bytes| == Length(r.item)
  {
    Le2(Crc16(Covered(r))) + Covered(r)
  }

  function Padded(r: Record): (bytes: seq<Byte>)
    requires Storable(r.item)
    ensures |bytes| == Cost(r.item)
  {
    EncodeRecord(r) + Zeros(Cost(r.item) - Length(r.item))
  }

  function TotalCost(rs: seq<Record>): nat {
    if rs == [] then 0 else Cost(rs[0].item) + TotalCost(rs[1..])
  }

  function EncodeRecords(rs: seq<Record>): (bytes: seq<Byte>)
    requires AllStorable(rs)
    ensures |bytes| == TotalCost(rs)
  {
    if rs == [] then [] else Padded(rs[0]) + EncodeRecords(rs[1..])
  }

  function PageHeader(logical: Byte, freq: Byte): (bytes: seq<Byte>)
    ensures |bytes| == SECTOR_HEADER_SIZE
  {
    [VALID_FLAG, logical, freq, 0] + Zeros(12)
  }

  predicate PageFits(rs: seq<Record>) {
    AllStorable(rs) && SECTOR_HEADER_SIZE + TotalCost(rs) <= PAGE_SIZE
  }

  function PageBytes(logical: Byte, freq: Byte, rs: seq<Record>): (bytes: seq<Byte>)
    requires PageFits(rs)
    ensures |bytes| == PAGE_SIZE
  {
    PageHeader(logical, freq) + EncodeRecords(rs) + Zeros(PAGE_SIZE - SECTOR_HEADER_SIZE - TotalCost(rs))
  }

  // ---------- reading ----------

  /** A record starts here: room for its header, and a non-zero token length. */
  predicate RecordPresent(rest: seq<Byte>) {
    |rest| >= RECORD_HEADER_SIZE && rest[2] != 0
  }

  function RecordEnd(rest: seq<Byte>): (end: nat)
    requires RecordPresent(rest)
    ensures end > RECORD_HEADER_SIZE
  {
    RECORD_HEADER_SIZE + rest[2] + rest[5]
  }

  /** The record that starts here stays in the page and its CRC matches. */
  predicate RecordIntact(rest: seq<Byte>)
    requires RecordPresent(rest)
  {
    RecordEnd(rest) <= |rest| && Num2([rest[0], rest[1]]) == Crc16(rest[2..RecordEnd(rest)])
  }

  function DecodeRecord(rest: seq<Byte>, poolId: int): Record
    requires RecordPresent(rest) && RecordEnd(rest) <= |rest|
  {
    var dataStart := RECORD_HEADER_SIZE + rest[2];
    Record(Num2([rest[6], rest[7]]),
           NvmItem(poolId, rest[4], rest[RECORD_HEADER_SIZE..dataStart], rest[dataStart..RecordEnd(rest)]))
  }

  /** What follows a record: the next one starts at the next write unit. */
  function AfterRecord(rest: seq<Byte>): (more: seq<Byte>)
    requires RecordPresent(rest) && RecordEnd(rest) <= |rest|
    ensures |more| < |rest|
  {
    var span := AlignUp(RecordEnd(rest));
    if span <= |rest| then rest[span..] else []
  }

  /** The records in the rest of a page, or None when one of them is corrupt. */
  function ParseRecords(rest: seq<Byte>, poolId: int): Option<seq<Record>>
    decreases |rest|
  {
    if !RecordPresent(rest) then Some([])
    else if !RecordIntact(rest) then None
    else
      match ParseRecords(AfterRecord(rest), poolId)
      case None => None
      case Some(more) => Some([DecodeRecord(rest, poolId)] + more)
  }

  function ParsePage(page: seq<Byte>, poolId: int): Option<seq<Record>>
    requires |page| == PAGE_SIZE
  {
    ParseRecords(page[SECTOR_HEADER_SIZE..], poolId)
  }

  datatype SectorScan = Unused | Corrupt | Valid(logical: Byte, records: seq<Record>)

  predicate HeaderReplicated(sector: seq<Byte>)
    requires |sector| == SECTOR_SIZE
  {
    sector[..4] == sector[PAGE_SIZE..PAGE_SIZE + 4]
  }

  function PageOf(sector: seq<Byte>, page: nat): (p: seq<Byte>)
    requires |sector| == SECTOR_SIZE && page < PAGES_PER_SECTOR
    ensures |p| == PAGE_SIZE
  {
    sector[page * PAGE_SIZE..(page + 1) * PAGE_SIZE]
  }

  function ScanSector(sector: seq<Byte>, poolId: int): SectorScan
    requires |sector| == SECTOR_SIZE
  {
    if sector[0] != VALID_FLAG || sector[3] == ERASE_PENDING then Unused
    else if !HeaderReplicated(sector) then Corrupt
    else
      match ParsePage(PageOf(sector, 0), poolId)
      case None => Corrupt
      case Some(first) =>
        match ParsePage(PageOf(sector, 1), poolId)
        case None => Corrupt
        case Some(second) => Valid(sector[1], first + second)
  }

  // ---------- printing then parsing ----------

  /** What is read back of a record: its pool is the analysed one, its number has 16 bits. */
  function Stored(r: Record, poolId: int): Record {
    Record(r.seqNo % 65536, r.item.(poolId := poolId))
  }

  function AllStored(rs: seq<Record>, poolId: int): (out: seq<Record>)
    ensures |out| == |rs| && forall k :: 0 <= k < |rs| ==> out[k] == Stored(rs[k], poolId)
  {
    seq(|rs|, k requires 0 <= k < |rs| => Stored(rs[k], poolId))
  }

  /** Bytes that start with an encoded record decode to it. */
  lemma RecordRoundTrip(rest: seq<Byte>, r: Record, poolId: int)
    requires Storable(r.item) && Length(r.item) <= |rest|
    requires rest[..Length(r.item)] == EncodeRecord(r)
    ensures RecordPresent(rest) && RecordIntact(rest) && RecordEnd(rest) == Length(r.item)
    ensures DecodeRecord(rest, poolId) == Stored(r, poolId)
  {
    hide Crc16;
    var n, t := Length(r.item), |r.item.token|;
    var enc := rest[..n];
    Le2RoundTrip(Crc16(Covered(r)));
    Le2RoundTrip(r.seqNo);
    assert rest[2..n] == enc[2..] == Covered(r);
    assert rest[8..8 + t] == enc[8..8 + t] == r.item.token;
    assert rest[8 + t..n] == enc[8 + t..] == r.item.data;
  }

  /** The first of several encoded records, and what is left behind it. */
  lemma FirstRecord(rest: seq<Byte>, rs: seq<Record>)
    requires rs != [] && AllStorable(rs) && TotalCost(rs) <= |rest|
    requires rest == EncodeRecords(rs) + Zeros(|rest| - TotalCost(rs))
    ensures Length(rs[0].item) <= Cost(rs[0].item) <= |rest| && TotalCost(rs) == Cost(rs[0].item) + TotalCost(rs[1..])
    ensures rest[..Length(rs[0].item)] == EncodeRecord(rs[0])
    ensures rest[Cost(rs[0].item)..] ==
            EncodeRecords(rs[1..]) + Zeros(|rest| - Cost(rs[0].item) - TotalCost(rs[1..]))
  {
    hide EncodeRecord, Length, AlignUp;
    var tail := EncodeRecords(rs[1..]) + Zeros(|rest| - Cost(rs[0].item) - TotalCost(rs[1..]));
    assert rest == Padded(rs[0]) + tail;
    assert Padded(rs[0])[..Length(rs[0].item)] == EncodeRecord(rs[0]);
  }

  lemma NoRecordInZeros(n: nat, poolId: int)
    ensures ParseRecords(Zeros(n), poolId) == Some([])
  {}

  lemma ParseFirst(rest: seq<Byte>, r: Record, poolId: int)
    requires Storable(r.item) && Cost(r.item) <= |rest| && rest[..Length(r.item)] == EncodeRecord(r)
    ensures ParseRecords(rest, poolId) ==
            match ParseRecords(rest[Cost(r.item)..], poolId)
            case None => None
            case Some(more) => Some([Stored(r, poolId)] + more)
  {
    hide EncodeRecord, Length, RecordIntact, DecodeRecord, Stored;
    RecordRoundTrip(rest, r, poolId);
    assert AfterRecord(rest) == rest[Cost(r.item)..];
  }

  lemma {:induction false} ParseRoundTrip(rest: seq<Byte>, rs: seq<Record>, poolId: int)
    requires AllStorable(rs) && TotalCost(rs) <= |rest|
    requires rest == EncodeRecords(rs) + Zeros(|rest| - TotalCost(rs))
    ensures ParseRecords(rest, poolId) == Some(AllStored(rs, poolId))
    decreases |rs|
  {
    hide Padded, Cost, Length, EncodeRecord, Stored, ParseRecords;
    if rs == [] {
      assert rest == Zeros(|rest|);
      NoRecordInZeros(|rest|, poolId);
    } else {
      FirstRecord(rest, rs);
      ParseFirst(rest, rs[0], poolId);
      ParseRoundTrip(rest[Cost(rs[0].item)..], rs[1..], poolId);
      assert AllStored(rs, poolId) == [Stored(rs[0], poolId)] + AllStored(rs[1..], poolId);
    }
  }

  lemma PageRoundTrip(logical: Byte, freq: Byte, rs: seq<Record>, poolId: int)
    requires PageFits(rs)
    ensures ParsePage(PageBytes(logical, freq, rs), poolId) == Some(AllStored(rs, poolId))
  {
    hide Padded, AlignUp, ParseRecords, Length, Crc16, Stored;
    var rest := PageBytes(logical, freq, rs)[SECTOR_HEADER_SIZE..];
    assert rest == EncodeRecords(rs) + Zeros(PAGE_SIZE - SECTOR_HEADER_SIZE - TotalCost(rs));
    ParseRoundTrip(rest, rs, poolId);
  }
}
