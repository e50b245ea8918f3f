/** The OTA file byte by byte: what a generated file holds, and that reading and writing undo each other. */
module OtaBytes {
  import opened Bytes
  import opened Results
  import opened OtaFile
  import opened ZlibCrc
  import opened OtaGenerator

  // ---------- what reading takes from where ----------

  /** How long a header with these field-control bits is. */
  function HeaderLength(control: nat): nat {
    56 + (if control % 2 == 1 then 1 else 0) + (if control / 2 % 2 == 1 then 8 else 0) +
    (if control / 4 % 2 == 1 then 4 else 0)
  }

  lemma HeaderLengthIs(control: nat)
    ensures HeaderLength(control) == 56 + OptionalLength(control)
  {}

  /** The fixed fields of a header, where the standard puts them. */
  lemma FixedFieldsRead(file: seq<Byte>)
    requires |file| >= 56
    ensures var f := Unpack(file[..56]);
      && f.fileIdentifier == LittleEndian(file[0..4]) && f.headerVersion == LittleEndian(file[4..6])
      && f.headerLength == LittleEndian(file[6..8]) && f.fieldControl == LittleEndian(file[8..10])
      && f.manufacturer == LittleEndian(file[10..12]) && f.imageType == LittleEndian(file[12..14])
      && f.fileVersion == LittleEndian(file[14..18]) && f.stackVersion == LittleEndian(file[18..20])
      && f.headerString == file[20..52] && f.imageSize == LittleEndian(file[52..56])
  {
    hide LittleEndian, Num2, Num4;
    var raw := file[..56];
    forall i, j | 0 <= i <= j <= 56 ensures raw[i..j] == file[i..j] {
      SliceOfSlice(file, 0, 56, i, j);
      assert file[0..56] == raw;
    }
    forall b: seq<Byte> ensures |b| == 2 ==> Num2(b) == LittleEndian(b) ensures |b| == 4 ==> Num4(b) == LittleEndian(b) {
      NumbersAre(b);
    }
  }

  /** A header is read exactly when the file holds it whole, and then its fields are these bytes. */
  lemma HeaderReads(file: seq<Byte>)
    ensures ParseHeader(file).Some? <==> |file| >= 56 && |file| >= HeaderLength(LittleEndian(file[8..10]))
    ensures ParseHeader(file).Some? ==>
      var (f, n) := ParseHeader(file).value;
      var control := LittleEndian(file[8..10]);
      var device := 56 + (if control % 2 == 1 then 1 else 0);
      var hardware := device + (if control / 2 % 2 == 1 then 8 else 0);
      && n == HeaderLength(control) && |file| >= n
      && f == Unpack(file[..56]).(
           securityVersion := if control % 2 == 1 then file[56] else 0,
           ieeeAddress := if control / 2 % 2 == 1 then file[device..device + 8] else [],
           minHardware := if control / 4 % 2 == 1 then LittleEndian(file[hardware..hardware + 2]) else 0,
           maxHardware := if control / 4 % 2 == 1 then LittleEndian(file[hardware + 2..hardware + 4]) else 0)
  {
    hide LittleEndian, Num2, Num4, Unpack;
    if |file| >= 56 {
      FixedFieldsRead(file);
      var control := LittleEndian(file[8..10]);
      HeaderLengthIs(control);
      if |file| >= HeaderLength(control) {
        var tail := file[56..];
        assert forall i, j :: 0 <= i <= j <= |tail| ==> tail[i..j] == file[56 + i..56 + j] by {
          forall i, j | 0 <= i <= j <= |tail| ensures tail[i..j] == file[56 + i..56 + j] {
            SliceOfSlice(file, 56, |file|, i, j);
          }
        }
        forall b: seq<Byte> ensures |b| == 2 ==> Num2(b) == LittleEndian(b) {
          NumbersAre(b);
        }
      }
    }
  }

  /** A sub-element is read when its six-byte header is there: tag, length, and as much data as there is. */
  lemma SubelementReads(file: seq<Byte>, pos: nat)
    ensures ReadSubelement(file, pos).Some? <==> pos + 6 <= |file|
    ensures ReadSubelement(file, pos).Some? ==>
      var (e, next) := ReadSubelement(file, pos).value;
      && e.tag == LittleEndian(file[pos..pos + 2]) && e.length == LittleEndian(file[pos + 2..pos + 6])
      && pos + 6 <= next <= |file| && e.data == file[pos + 6..next]
      && (next == pos + 6 + e.length || (next == |file| && next < pos + 6 + e.length))
  {
    hide LittleEndian, Num2, Num4;
    if pos + 6 <= |file| {
      NumbersAre(file[pos..pos + 2]);
      NumbersAre(file[pos + 2..pos + 6]);
    }
  }

  // ---------- writing back what was read ----------

  lemma BytesOfNumbers(b: seq<Byte>)
    ensures |b| == 2 ==> Le2(Num2(b)) == b
    ensures |b| == 4 ==> Le4(Num4(b)) == b
  {
    hide Le2, Num2;
    if |b| == 4 {
      TwoBack(b[..2]);
      TwoBack(b[2..]);
      HighAndLow(Num2(b[..2]), Num2(b[2..]));
      assert b == b[..2] + b[2..];
    } else if |b| == 2 {
      TwoBack(b);
    }
  }

  lemma HighAndLow(low: Word, high: Word)
    ensures (low + 65536 * high) % 65536 == low && (low + 65536 * high) / 65536 == high
  {}

  lemma TwoBack(b: seq<Byte>)
    requires |b| == 2
    ensures Le2(Num2(b)) == b
  {}

  lemma FullString(s: seq<Byte>)
    requires |s| == 32
    ensures String32(s) == s
  {}

  lemma FixedPartWritesBack(raw: seq<Byte>)
    requires |raw| == MIN_LEN
    ensures FixedPart(Unpack(raw)) == raw
  {
    hide Le2, Le4, Num2, Num4, String32;
    BytesOfNumbers(raw[0..4]);
    BytesOfNumbers(raw[4..6]);
    BytesOfNumbers(raw[6..8]);
    BytesOfNumbers(raw[8..10]);
    BytesOfNumbers(raw[10..12]);
    BytesOfNumbers(raw[12..14]);
    BytesOfNumbers(raw[14..18]);
    BytesOfNumbers(raw[18..20]);
    BytesOfNumbers(raw[52..56]);
    FullString(raw[20..52]);
    assert raw == raw[0..4] + raw[4..6] + raw[6..8] + raw[8..10] + raw[10..12] + raw[12..14] + raw[14..18] + raw[18..20] +
      raw[20..52] + raw[52..56];
  }

  /** The fixed part does not look at the optional fields. */
  lemma FixedPartOfOptional(f: Fields, g: Fields)
    ensures FixedPart(OptionalOf(f, g)) == FixedPart(f)
  {}

  lemma OptionalPartWritesBack(f: Fields, tail: seq<Byte>)
    requires OptionalLength(f.fieldControl) <= |tail| && Packable(WithOptional(f, tail))
    ensures OptionalPart(WithOptional(f, tail)) == tail[..OptionalLength(f.fieldControl)]
  {
    hide Le2, Num2, BitSet;
    var device := if HasSecurity(f) then 1 else 0;
    var hardware := device + (if HasDevice(f) then 8 else 0);
    if HasHardware(f) {
      BytesOfNumbers(tail[hardware..hardware + 2]);
      BytesOfNumbers(tail[hardware + 2..hardware + 4]);
      assert tail[hardware..hardware + 4] == tail[hardware..hardware + 2] + tail[hardware + 2..hardware + 4];
    }
    if HasSecurity(f) {
      assert tail[..1] == [tail[0]];
    }
    assert tail[..hardware] == tail[..device] + tail[device..hardware];
  }

  /** Whatever header was read, writing it gives the bytes it was read from. */
  lemma HeaderWritesBack(file: seq<Byte>)
    requires ParseHeader(file).Some?
    ensures var (f, n) := ParseHeader(file).value;
      Packable(f) && n <= |file| && HeaderBytes(f) == file[..n]
  {
    hide FixedPart, Unpack, OptionalPart, String32, BitSet;
    var u, tail := Unpack(file[..MIN_LEN]), file[MIN_LEN..];
    var f := WithOptional(u, tail);
    UnpackedFits(file[..MIN_LEN], tail);
    FixedPartWritesBack(file[..MIN_LEN]);
    FixedPartOfOptional(u, f);
    OptionalPartWritesBack(u, tail);
    assert file[..MIN_LEN + OptionalLength(u.fieldControl)] ==
      file[..MIN_LEN] + tail[..OptionalLength(u.fieldControl)];
  }

  lemma UnpackedFits(raw: seq<Byte>, tail: seq<Byte>)
    requires |raw| == MIN_LEN && OptionalLength(Unpack(raw).fieldControl) <= |tail|
    ensures Packable(WithOptional(Unpack(raw), tail))
  {
    hide Num2, Num4, BitSet;
  }

  /** Sub-elements as bytes, with the data as it is. */
  function AsBytes(es: seq<Subelement>): seq<Byte> {
    if es == [] then [] else Le2(es[0].tag) + Le4(es[0].length) + es[0].data + AsBytes(es[1..])
  }

  lemma ElementWritesBack(file: seq<Byte>, pos: nat)
    requires ReadSubelement(file, pos).Some?
    ensures var (e, next) := ReadSubelement(file, pos).value;
      pos + 6 <= next <= |file| && Le2(e.tag) + Le4(e.length) + e.data == file[pos..next]
  {
    hide Le2, Le4, Num2, Num4;
    BytesOfNumbers(file[pos..pos + 2]);
    BytesOfNumbers(file[pos + 2..pos + 6]);
  }

  /** Whatever sub-elements were read, they are the bytes between the positions. */
  lemma {:induction false} ElementsWriteBack(file: seq<Byte>, pos: nat, size: nat)
    requires pos <= |file| && ReadUntil(file, pos, size).Some?
    ensures pos <= size <= |file| && AsBytes(ReadUntil(file, pos, size).value) == file[pos..size]
    decreases |file| - pos
  {
    hide ReadSubelement, Le2, Le4;
    if pos != size {
      var (e, next) := ReadSubelement(file, pos).value;
      ElementWritesBack(file, pos);
      ElementsWriteBack(file, next, size);
      var more := ReadUntil(file, next, size).value;
      assert ([e] + more)[1..] == more;
      assert file[pos..size] == file[pos..next] + file[next..size];
    }
  }

  /** Reading loses nothing: header and sub-elements written back are the file up to the size its header gives. */
  lemma FileWritesBack(file: seq<Byte>)
    requires ReadFile(file).Some?
    ensures var (f, es) := ReadFile(file).value;
      Packable(f) && f.imageSize <= |file| && HeaderBytes(f) + AsBytes(es) == file[..f.imageSize]
  {
    hide ParseHeader, ReadUntil, HeaderBytes, AsBytes, Packable;
    var (f, n) := ParseHeader(file).value;
    HeaderWritesBack(file);
    ElementsWriteBack(file, n, f.imageSize);
    assert file[..f.imageSize] == file[..n] + file[n..f.imageSize];
  }

  // ---------- what a generated file holds ----------

  /** "Qorvo OTA image", padded to 32 bytes. */
  const STRING_FIELD: seq<Byte> :=
    [81, 111, 114, 118, 111, 32, 79, 84, 65, 32, 105, 109, 97, 103, 101, 0,
     0, 0, 0, 0, 0, 0, 0, 0, 0, 0, 0, 0, 0, 0, 0, 0]

  /** Data as a sub-element stores it: a length that is a multiple of 4 GiB is cut to 0 and the data left out. */
  function Kept(data: seq<Byte>): seq<Byte> { if |data| % 0x1_0000_0000 == 0 then [] else data }

  /** What a reader finds in a generated file: the version it was made for, the fixed values, the size of the file, the
      application, the jump table if there is one, and last the CRC or the signer's address and signature of all bytes
      before that sub-element. */
  ghost predicate Holds(file: seq<Byte>, f: Fields, es: seq<Subelement>, app: seq<Byte>, jumptable: seq<Byte>,
                        version: int, signer: Option<Signer>) {
    && f.fileIdentifier == 0x0BEEF11E && f.headerVersion == 0x0100 && f.headerLength == 60 && f.fieldControl == 4
    && f.manufacturer == 0x10D0 && f.imageType == 0 && f.fileVersion == version % 0x1_0000_0000 && f.stackVersion == 2
    && f.headerString == STRING_FIELD && f.imageSize == |file| && f.minHardware == 0 && f.maxHardware == 0x0101
    && |es| == (if jumptable == [] then 2 else 3)
    && es[0].tag == 0x0000 && es[0].data == Kept(app)
    && (jumptable != [] ==> es[1].tag == 0xF000 && es[1].data == Kept(jumptable))
    && var last := es[|es| - 1];
       match signer
       case None =>
         && |file| >= 22 && last.tag == 0x0003 && |last.data| == 16 && last.data[..12] == Zeros(12)
         && LittleEndian(last.data[12..]) == Number(Crc32(file[..|file| - 22], 0))
       case Some(sign) =>
         && |file| >= 78 && last.tag == 0x0001 && |sign(file[..|file| - 78])| == 64
         && last.data == [0x78, 0x56, 0x34, 0x12, 0xD0, 0x10, 0xAB, 0xFF] + sign(file[..|file| - 78])
  }

  lemma GeneratedFileHolds(app: seq<Byte>, jumptable: seq<Byte>, version: int, signer: Option<Signer>)
    requires Image(app, jumptable, version, signer).Ok? && LengthFits(app) && LengthFits(jumptable)
    ensures var file := Image(app, jumptable, version, signer).value;
      ReadFile(file).Some? &&
      Holds(file, ReadFile(file).value.0, ReadFile(file).value.1, app, jumptable, version, signer)
  {
    hide HeaderBytes, AllBytes, ReadFile, LengthFits, Image, Crc32, LittleEndian;
    ImageReadsBack(app, jumptable, version, signer);
    FixedSizeIsExact(app, jumptable, version, signer);
    ImageIs(app, jumptable, version, signer);
    var file := Image(app, jumptable, version, signer).value;
    var es := DataElements(app, jumptable);
    var header := ImageHeader(version, es, signer);
    var before := HeaderBytes(header) + AllBytes(es);
    ImageEnds(app, jumptable, version, signer);
    LastBytes(file, before, es, signer);
    FieldsHold(version, es, signer);
    ElementsHold(app, jumptable);
    HelperHolds(before, signer);
  }

  lemma ImageEnds(app: seq<Byte>, jumptable: seq<Byte>, version: int, signer: Option<Signer>)
    requires Image(app, jumptable, version, signer).Ok?
    ensures var es := DataElements(app, jumptable);
      Packable(ImageHeader(version, es, signer))
    ensures var es := DataElements(app, jumptable);
      var before := HeaderBytes(ImageHeader(version, es, signer)) + AllBytes(es);
      && Image(app, jumptable, version, signer).value == before + SubelementBytes(Helper(before, signer))
      && (signer.Some? ==> |signer.value(before)| == SIGNATURE_LENGTH)
  {
    hide HeaderBytes, AllBytes, DataElements, ImageHeader, Helper, SubelementBytes, Packable;
  }

  lemma FieldsHold(version: int, es: seq<Subelement>, signer: Option<Signer>)
    ensures var f := Normal(ImageHeader(version, es, signer));
      && f.fileIdentifier == 0x0BEEF11E && f.headerVersion == 0x0100 && f.headerLength == 60 && f.fieldControl == 4
      && f.manufacturer == 0x10D0 && f.imageType == 0 && f.fileVersion == version % 0x1_0000_0000 && f.stackVersion == 2
      && f.headerString == STRING_FIELD && f.minHardware == 0 && f.maxHardware == 0x0101
      && f.imageSize == ImageHeader(version, es, signer).imageSize
  {
    assert String32(HEADER_STRING) == STRING_FIELD;
  }

  lemma ElementsHold(app: seq<Byte>, jumptable: seq<Byte>)
    ensures var es := AllStored(DataElements(app, jumptable));
      && |es| == (if jumptable == [] then 1 else 2) && es[0].tag == 0x0000 && es[0].data == Kept(app)
      && (jumptable != [] ==> es[1].tag == 0xF000 && es[1].data == Kept(jumptable))
  {}

  lemma HelperHolds(before: seq<Byte>, signer: Option<Signer>)
    ensures var last := Helper(before, signer);
      match signer
      case None =>
        && last.tag == 0x0003 && |last.data| == 16 && last.data[..12] == Zeros(12)
        && LittleEndian(last.data[12..]) == Number(Crc32(before, 0))
      case Some(sign) =>
        last.tag == 0x0001 &&
        last.data == [0x78, 0x56, 0x34, 0x12, 0xD0, 0x10, 0xAB, 0xFF] + sign(before)
  {
    hide Crc32, Le2, Num2, LittleEndian;
    var crc := Number(Crc32(before, 0));
    NumbersAre(Le4(crc));
    LeRoundTrip(crc);
    assert (Zeros(12) + Le4(crc))[12..] == Le4(crc);
  }

  /** Where the last sub-element begins. */
  lemma LastBytes(file: seq<Byte>, before: seq<Byte>, es: seq<Subelement>, signer: Option<Signer>)
    requires file == before + SubelementBytes(Helper(before, signer))
    requires signer.Some? ==> |signer.value(before)| == SIGNATURE_LENGTH
    ensures signer.None? ==> |file| >= 22 && file[..|file| - 22] == before
    ensures signer.Some? ==> |file| >= 78 && file[..|file| - 78] == before && |signer.value(before)| == 64
  {
    hide Helper, SubelementBytes;
    HelperLength(before, signer);
  }

  /** When the total does not fit 32 bits, in bytes of application and jump table. */
  lemma WhenTooLarge(app: seq<Byte>, jumptable: seq<Byte>, version: int, signer: Option<Signer>)
    ensures Image(app, jumptable, version, signer) == Err(TooLarge) <==>
      60 + (6 + |app| % 0x1_0000_0000) + (if jumptable == [] then 0 else 6 + |jumptable| % 0x1_0000_0000) +
      (if signer.None? then 6 + 16 else 6 + 8 + 64) >= 0x1_0000_0000
  {
    hide Packable, HeaderBytes, AllBytes;
    WhenImagesFail(app, jumptable, version, signer);
    var es := DataElements(app, jumptable);
    assert es[..|es| - 1] == if jumptable == [] then [] else [es[0]];
    assert CountedSize([es[0]]) == 6 + |app| % 0x1_0000_0000 by {
      assert [es[0]][..0] == [];
    }
    if jumptable == [] {
      assert es == [es[0]];
    }
  }
}
