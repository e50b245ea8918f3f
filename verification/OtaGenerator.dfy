/** Building an OTA file: sub-elements, header, a size fixed in advance, and a CRC or signature over it all. */
module OtaGenerator {
  import opened Bytes
  import opened Results
  import opened OtaFile
  import opened ZlibCrc

  // ---------- what a generated file consists of ----------

  const SIGNATURE_LENGTH := 64
  const ADDRESS_LENGTH := 8
  /** 0xFFAB10D012345678, little-endian. */
  const SIGNER_ADDRESS: seq<Byte> := [0x78, 0x56, 0x34, 0x12, 0xD0, 0x10, 0xAB, 0xFF]
  /** "Qorvo OTA image" in ASCII. */
  const HEADER_STRING: seq<Byte> := [81, 111, 114, 118, 111, 32, 79, 84, 65, 32, 105, 109, 97, 103, 101]

  /** Signing with the private key, seen from outside: bytes in, signature out. */
  type Signer = seq<Byte> -> seq<Byte>

  datatype ImageError = TooLarge | BadSignature

  function DataElements(app: seq<Byte>, jumptable: seq<Byte>): (es: seq<Subelement>)
    ensures Made(es)
  {
    [MakeSubelement(TAG_MAIN_IMAGE, app)] +
    if jumptable == [] then [] else [MakeSubelement(TAG_JUMPTABLE_IMAGE, jumptable)]
  }

  function HelperSize(signer: Option<Signer>): nat {
    SUBELEMENT_HEADER_LEN + if signer.Some? then ADDRESS_LENGTH + SIGNATURE_LENGTH else CRC_DATA_LEN
  }

  /** The header with the size the file is going to have. */
  function ImageHeader(version: int, es: seq<Subelement>, signer: Option<Signer>): Fields {
    Fields(FILE_ID, HEADER_VERSION, MIN_LEN + 4, 4, MANUFACTURER_CODE, 0, version % 0x1_0000_0000, ZIGBEE_VERSION,
           HEADER_STRING, MIN_LEN + 4 + CountedSize(es) + HelperSize(signer), 0, [], 0x0000, 0x0101)
  }

  /** The last sub-element: a CRC or a signature of all bytes before it. */
  function Helper(before: seq<Byte>, signer: Option<Signer>): (e: Subelement)
    ensures Made([e])
  {
    match signer
    case None => MakeSubelement(TAG_IMAGE_INTEGRITY, Zeros(12) + Le4(Number(Crc32(before, 0))))
    case Some(sign) => MakeSubelement(TAG_SIGNATURE, SIGNER_ADDRESS + sign(before))
  }

  /** The file for an application and a jump table (empty: none). */
  function Image(app: seq<Byte>, jumptable: seq<Byte>, version: int, signer: Option<Signer>)
    : Result<seq<Byte>, ImageError>
  {
    var es := DataElements(app, jumptable);
    var header := ImageHeader(version, es, signer);
    if !Packable(header) then Err(TooLarge)
    else
      var before := HeaderBytes(header) + AllBytes(es);
      if signer.Some? && |signer.value(before)| != SIGNATURE_LENGTH then Err(BadSignature)
      else Ok(before + SubelementBytes(Helper(before, signer)))
  }

  // ---------- the tool ----------

  method CreateHeader(version: int) returns (header: Header)
    ensures fresh(header) && header.Tracked()
    ensures header.Now() == ImageHeader(version, [], None).(imageSize := 0)
  {
    header := new Header(HEADER_STRING, version, 0x0000);
    header.SetHardwareVersion(0x0000, 0x0101);
  }

  lemma AllBytesStep(es: seq<Subelement>, k: nat)
    requires k < |es|
    ensures AllBytes(es[..k + 1]) == AllBytes(es[..k]) + SubelementBytes(es[k])
    ensures CountedSize(es[..k + 1]) == CountedSize(es[..k]) + es[k].length + SUBELEMENT_HEADER_LEN
  {
    assert es[..k + 1][..k] == es[..k];
  }

  /** None when the header does not serialise. */
  method CreateSubelementHash(header: Header, es: seq<Subelement>) returns (e: Option<Subelement>)
    ensures e == if Packable(header.Now()) then Some(Helper(HeaderBytes(header.Now()) + AllBytes(es), None)) else None
  {
    hide Crc32, SubelementBytes, HeaderBytes, Packable;
    var first := header.Serialize();
    if first == None {
      return None;
    }
    ghost var head := HeaderBytes(header.Now());
    ChainedCrc([], head, 0);
    var crc := Crc32(first.value, 0);
    assert head + AllBytes(es[..0]) == head;
    for k := 0 to |es|
      invariant crc == Crc32(head + AllBytes(es[..k]), 0)
    {
      AllBytesStep(es, k);
      ChainedCrc(head + AllBytes(es[..k]), SubelementBytes(es[k]), 0);
      assert head + AllBytes(es[..k + 1]) == (head + AllBytes(es[..k])) + SubelementBytes(es[k]);
      crc := Crc32(SubelementBytes(es[k]), crc);
    }
    assert es[..|es|] == es;
    e := Some(MakeSubelement(TAG_IMAGE_INTEGRITY, Zeros(12) + Le4(Number(crc))));
  }

  method CreateSubelementSignature(header: Header, es: seq<Subelement>, sign: Signer)
    returns (e: Result<Subelement, ImageError>)
    ensures e == if !Packable(header.Now()) then Err(TooLarge)
                 else
                   var before := HeaderBytes(header.Now()) + AllBytes(es);
                   if |sign(before)| != SIGNATURE_LENGTH then Err(BadSignature) else Ok(Helper(before, Some(sign)))
  {
    hide SubelementBytes, HeaderBytes, Packable;
    var first := header.Serialize();
    if first == None {
      return Err(TooLarge);
    }
    var image := first.value;
    assert image + AllBytes(es[..0]) == image;
    for k := 0 to |es|
      invariant image == HeaderBytes(header.Now()) + AllBytes(es[..k])
    {
      AllBytesStep(es, k);
      image := image + SubelementBytes(es[k]);
    }
    assert es[..|es|] == es;
    var signature := sign(image);
    if |signature| != SIGNATURE_LENGTH {
      return Err(BadSignature);
    }
    e := Ok(MakeSubelement(TAG_SIGNATURE, SIGNER_ADDRESS + signature));
  }

  /** The size is put into the header before anything is serialised. */
  method GenerateImage(binary: seq<Byte>, applicationOffset: nat, jumptable: seq<Byte>, version: int,
                       signer: Option<Signer>)
    returns (r: Result<seq<Byte>, ImageError>)
    ensures var app := if applicationOffset <= |binary| then binary[applicationOffset..] else [];
      r == Image(app, jumptable, version, signer)
  {
    hide SubelementBytes, HeaderBytes, Packable, Helper;
    var app := if applicationOffset <= |binary| then binary[applicationOffset..] else [];
    var es := [MakeSubelement(TAG_MAIN_IMAGE, app)];
    if |jumptable| > 0 {
      es := es + [MakeSubelement(TAG_JUMPTABLE_IMAGE, jumptable)];
    }
    assert es == DataElements(app, jumptable);
    var header := CreateHeader(version);
    var size := FixSize(header.headerLength, es, signer);
    header.SetTotalOtaFileSize(size);
    assert header.Now() == ImageHeader(version, es, signer);
    var helper := CreateHelper(header, es, signer);
    if helper.Err? {
      return Err(helper.error);
    }
    r := WriteFile(header, es, helper.value);
  }

  /** The size the file is going to have, from the sizes of its parts. */
  method FixSize(headerLength: nat, es: seq<Subelement>, signer: Option<Signer>) returns (size: nat)
    ensures size == headerLength + CountedSize(es) + HelperSize(signer)
  {
    size := headerLength;
    for k := 0 to |es|
      invariant size == headerLength + CountedSize(es[..k])
    {
      AllBytesStep(es, k);
      size := size + es[k].length + SUBELEMENT_HEADER_LEN;
    }
    assert es[..|es|] == es;
    if signer.Some? {
      size := size + SUBELEMENT_HEADER_LEN + ADDRESS_LENGTH + SIGNATURE_LENGTH;
    } else {
      size := size + SUBELEMENT_HEADER_LEN + CRC_DATA_LEN;
    }
  }

  method CreateHelper(header: Header, es: seq<Subelement>, signer: Option<Signer>)
    returns (e: Result<Subelement, ImageError>)
    ensures e == if !Packable(header.Now()) then Err(TooLarge)
                 else
                   var before := HeaderBytes(header.Now()) + AllBytes(es);
                   if signer.Some? && |signer.value(before)| != SIGNATURE_LENGTH then Err(BadSignature)
                   else Ok(Helper(before, signer))
  {
    hide SubelementBytes, HeaderBytes, Packable, Helper;
    if signer.Some? {
      e := CreateSubelementSignature(header, es, signer.value);
    } else {
      var hash := CreateSubelementHash(header, es);
      e := if hash == None then Err(TooLarge) else Ok(hash.value);
    }
  }

  method WriteFile(header: Header, es: seq<Subelement>, helper: Subelement) returns (r: Result<seq<Byte>, ImageError>)
    ensures r == if Packable(header.Now()) then Ok(HeaderBytes(header.Now()) + AllBytes(es) + SubelementBytes(helper))
                 else Err(TooLarge)
  {
    hide SubelementBytes, HeaderBytes, Packable;
    var first := header.Serialize();
    if first == None {
      return Err(TooLarge);
    }
    var out := first.value;
    assert out + AllBytes(es[..0]) == out;
    for k := 0 to |es|
      invariant out == HeaderBytes(header.Now()) + AllBytes(es[..k])
    {
      AllBytesStep(es, k);
      out := out + SubelementBytes(es[k]);
    }
    assert es[..|es|] == es;
    r := Ok(out + SubelementBytes(helper));
  }

  // ---------- what the file is worth ----------

  /** The 32-bit length field can tell how long the data is. */
  predicate LengthFits(data: seq<Byte>) { |data| < 0x1_0000_0000 || |data| % 0x1_0000_0000 == 0 }

  lemma ElementsTell(app: seq<Byte>, jumptable: seq<Byte>)
    ensures LengthFits(app) && LengthFits(jumptable) <==>
            forall k :: 0 <= k < |DataElements(app, jumptable)| ==> LengthTells(DataElements(app, jumptable)[k])
  {
    var es := DataElements(app, jumptable);
    assert LengthTells(es[0]) <==> LengthFits(app);
    assert jumptable != [] ==> (LengthTells(es[1]) <==> LengthFits(jumptable));
    if jumptable == [] {
      assert |es| == 1;
    }
  }

  /** The tool fails exactly when the total does not fit 32 bits or the signature has another length. */
  lemma WhenImagesFail(app: seq<Byte>, jumptable: seq<Byte>, version: int, signer: Option<Signer>)
    ensures var es := DataElements(app, jumptable);
      Image(app, jumptable, version, signer) == Err(TooLarge) <==>
      MIN_LEN + 4 + CountedSize(es) + HelperSize(signer) >= 0x1_0000_0000
    ensures var es := DataElements(app, jumptable);
      var header := ImageHeader(version, es, signer);
      Image(app, jumptable, version, signer) == Err(BadSignature) <==>
      && signer.Some? && Packable(header)
      && |signer.value(HeaderBytes(header) + AllBytes(es))| != SIGNATURE_LENGTH
  {}

  lemma HeaderIsConsistent(version: int, es: seq<Subelement>, signer: Option<Signer>)
    ensures var header := ImageHeader(version, es, signer);
      Packable(header) ==> header.headerLength == |HeaderBytes(header)|
  {
    var header := ImageHeader(version, es, signer);
    if Packable(header) {
      HeaderLengthIsRight(header, 0, 0, 1);
    }
  }

  /** The size fixed in advance is the size written, exactly when every length field tells its data's length. */
  lemma {:induction false} FixedSizeIsExact(app: seq<Byte>, jumptable: seq<Byte>, version: int, signer: Option<Signer>)
    requires Image(app, jumptable, version, signer).Ok?
    ensures var file := Image(app, jumptable, version, signer).value;
      var header := ImageHeader(version, DataElements(app, jumptable), signer);
      header.imageSize <= |file| && (header.imageSize == |file| <==> LengthFits(app) && LengthFits(jumptable))
  {
    hide Helper, HeaderBytes, DataElements, LengthFits, LengthTells, Packable;
    var es := DataElements(app, jumptable);
    var header := ImageHeader(version, es, signer);
    HeaderIsConsistent(version, es, signer);
    SizeIsRight(es);
    ElementsTell(app, jumptable);
    HelperLength(HeaderBytes(header) + AllBytes(es), signer);
  }

  lemma HelperLength(before: seq<Byte>, signer: Option<Signer>)
    requires signer.Some? ==> |signer.value(before)| == SIGNATURE_LENGTH
    ensures |SubelementBytes(Helper(before, signer))| == HelperSize(signer)
    ensures LengthTells(Helper(before, signer)) && Stored(Helper(before, signer)) == Helper(before, signer)
  {}

  /** A generated file reads back: the header, and the same sub-elements with the helper last. */
  lemma ImageReadsBack(app: seq<Byte>, jumptable: seq<Byte>, version: int, signer: Option<Signer>)
    requires Image(app, jumptable, version, signer).Ok? && LengthFits(app) && LengthFits(jumptable)
    ensures var file := Image(app, jumptable, version, signer).value;
      var es := DataElements(app, jumptable);
      var header := ImageHeader(version, es, signer);
      ReadFile(file) ==
      Some((Normal(header), AllStored(es) + [Helper(HeaderBytes(header) + AllBytes(es), signer)]))
  {
    hide Image, Helper, HeaderBytes, DataElements, LengthFits, LengthTells, Packable, ParseHeader, ReadUntil;
    hide SubelementBytes, ImageHeader, Stored, Made;
    var file := Image(app, jumptable, version, signer).value;
    var es := DataElements(app, jumptable);
    var header := ImageHeader(version, es, signer);
    ImageIs(app, jumptable, version, signer);
    var helper := Helper(HeaderBytes(header) + AllBytes(es), signer);
    ElementsTell(app, jumptable);
    ReadableTogether(es, helper);
    HeaderRoundTrip(header, AllBytes(es + [helper]));
    FixedSizeIsExact(app, jumptable, version, signer);
    HeaderKeepsSize(header);
    ReadAllBack(HeaderBytes(header), es + [helper]);
  }

  lemma HeaderKeepsSize(f: Fields)
    ensures Normal(f).imageSize == f.imageSize
  {}

  /** What a generated file consists of. */
  lemma ImageIs(app: seq<Byte>, jumptable: seq<Byte>, version: int, signer: Option<Signer>)
    requires Image(app, jumptable, version, signer).Ok?
    ensures var es := DataElements(app, jumptable);
      var header := ImageHeader(version, es, signer);
      && Packable(header)
      && var helper := Helper(HeaderBytes(header) + AllBytes(es), signer);
      && Image(app, jumptable, version, signer).value == HeaderBytes(header) + AllBytes(es + [helper])
      && Made([helper]) && LengthTells(helper) && Stored(helper) == helper
  {
    hide HeaderBytes, DataElements, LengthTells, Packable, SubelementBytes, ImageHeader, Stored, Helper, AllBytes, Made;
    var es := DataElements(app, jumptable);
    var before := HeaderBytes(ImageHeader(version, es, signer)) + AllBytes(es);
    HelperLength(before, signer);
    OneMoreElement(es, Helper(before, signer));
  }

  lemma OneMoreElement(es: seq<Subelement>, last: Subelement)
    ensures AllBytes(es + [last]) == AllBytes(es) + SubelementBytes(last)
  {
    hide SubelementBytes;
    assert (es + [last])[..|es|] == es;
  }

  lemma ReadableTogether(es: seq<Subelement>, helper: Subelement)
    requires Made(es) && Made([helper]) && LengthTells(helper) && Stored(helper) == helper
    requires forall k :: 0 <= k < |es| ==> LengthTells(es[k])
    ensures Readable(es + [helper]) && AllStored(es + [helper]) == AllStored(es) + [helper]
  {
    hide LengthTells, Stored;
    assert [helper][0] == helper;
  }

  /** Below 4 GiB nothing is lost in storing. */
  lemma DataElementsStayWhole(app: seq<Byte>, jumptable: seq<Byte>)
    requires |app| < 0x1_0000_0000 && |jumptable| < 0x1_0000_0000
    ensures AllStored(DataElements(app, jumptable)) == DataElements(app, jumptable)
    ensures LengthFits(app) && LengthFits(jumptable)
  {
    var es := DataElements(app, jumptable);
    forall k | 0 <= k < |es| ensures Stored(es[k]) == es[k] {
      assert es[k].length == |es[k].data|;
    }
  }

  /** Unsigned, the last four bytes are the CRC-32 of everything before the last sub-element. */
  lemma FileEndsWithItsCrc(app: seq<Byte>, jumptable: seq<Byte>, version: int)
    requires Image(app, jumptable, version, None).Ok?
    ensures var file := Image(app, jumptable, version, None).value;
      |file| >= 22 && Num4(file[|file| - 4..]) == Number(Crc32(file[..|file| - 22], 0))
  {
    hide HeaderBytes, DataElements, Packable, Crc32, Le2, Le4, Num4;
    var es := DataElements(app, jumptable);
    var before := HeaderBytes(ImageHeader(version, es, None)) + AllBytes(es);
    var file := Image(app, jumptable, version, None).value;
    var crc := Number(Crc32(before, 0));
    var data := Zeros(12) + Le4(crc);
    assert file == before + (Le2(TAG_IMAGE_INTEGRITY) + Le4(16) + data);
    assert file[..|file| - 22] == before && file[|file| - 4..] == Le4(crc);
    LeRoundTrip(crc);
  }
}
