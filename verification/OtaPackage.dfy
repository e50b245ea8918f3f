/** The multi-image update package: a header with one descriptor per part, a padded signature, the parts. */
module OtaPackage {
  import opened Bytes
  import opened Results

  const PREFIX_BYTES := 4
  const DESCRIPTOR_BYTES := 48
  const SIGNATURE_BYTES := 256

  type Hash = h: seq<Byte> | |h| == 32 witness Zeros(32)

  datatype Kind = SecureElement | Bootloader | Secondary | Application

  /** A part of the package: which image it is, and its bytes. */
  datatype Part = Part(kind: Kind, data: seq<Byte>)

  datatype PackError = NoImage | HeaderVersionOutOfRange | ImageTooShort | FieldTooLarge

  function Identifier(kind: Kind): Byte {
    match kind
    case Application => 0xF0
    case SecureElement => 0xF1
    case Bootloader => 0xF2
    case Secondary => 0xF3
  }

  /** A big-endian 32-bit number. */
  function BigEndian(b: seq<Byte>): nat
    requires |b| == 4
  {
    Num4([b[3], b[2], b[1], b[0]])
  }

  /** The version an image holds; None when it ends before its version field. */
  function Version(part: Part): (v: Option<nat>)
    ensures v.Some? ==> v.value < 0x1_0000_0000
  {
    var at := if part.kind.SecureElement? then 0x13E else 0x174;
    if |part.data| < at + 4 then None
    else if part.kind.SecureElement? then Some(BigEndian(part.data[at..at + 4]) / 256)
    else Some(BigEndian(part.data[at..at + 4]))
  }

  // ---------- the layout ----------

  function HeaderSize(n: nat): nat { PREFIX_BYTES + DESCRIPTOR_BYTES * n + SIGNATURE_BYTES }

  function Payload(parts: seq<Part>): seq<Byte> {
    if parts == [] then [] else Payload(parts[..|parts| - 1]) + parts[|parts| - 1].data
  }

  /** Where part i starts. */
  function Offset(parts: seq<Part>, i: nat): nat
    requires i <= |parts|
  {
    HeaderSize(|parts|) + |Payload(parts[..i])|
  }

  function Descriptor(part: Part, version: nat, offset: nat, hash: Hash): (d: seq<Byte>)
    ensures |d| == DESCRIPTOR_BYTES
  {
    Le4(Identifier(part.kind)) + Le4(|part.data|) + Le4(version) + Le4(offset) + hash
  }

  /** The first n descriptors, or the error of the first part that has none. */
  function Descriptors(parts: seq<Part>, n: nat, digest: seq<Byte> -> Hash): (r: Result<seq<Byte>, PackError>)
    requires n <= |parts|
    ensures r.Ok? ==> |r.value| == DESCRIPTOR_BYTES * n
  {
    if n == 0 then Ok([])
    else
      var before := Descriptors(parts, n - 1, digest);
      var part, version, offset := parts[n - 1], Version(parts[n - 1]), Offset(parts, n - 1);
      if before.Err? then before
      else if version == None then Err(ImageTooShort)
      else if |part.data| >= 0x1_0000_0000 || offset >= 0x1_0000_0000 then Err(FieldTooLarge)
      else Ok(before.value + Descriptor(part, version.value, offset, digest(part.data)))
  }

  /** The signed part of the package. */
  function Header(parts: seq<Part>, version: int, digest: seq<Byte> -> Hash): Result<seq<Byte>, PackError> {
    if parts == [] then Err(NoImage)
    else if !(0 <= version < 0x1_0000) then Err(HeaderVersionOutOfRange)
    else
      match Descriptors(parts, |parts|, digest)
      case Err(e) => Err(e)
      case Ok(ds) => Ok(Le2(version) + Le2(|parts|) + ds)
  }

  /** Fill up to 256 bytes; a longer signature stays as it is. */
  function PadSignature(s: seq<Byte>): (p: seq<Byte>)
    ensures |s| <= SIGNATURE_BYTES ==> |p| == SIGNATURE_BYTES
    ensures |s| > SIGNATURE_BYTES ==> p == s
  {
    if |s| <= SIGNATURE_BYTES then s + Zeros(SIGNATURE_BYTES - |s|) else s
  }

  /** What to write: only the hash of the header, for signing elsewhere, or the package. */
  datatype Mode = HashOnly | WithSignature(sign: seq<Byte> -> seq<Byte>)

  function Packed(parts: seq<Part>, version: int, digest: seq<Byte> -> Hash, mode: Mode): Result<seq<Byte>, PackError> {
    match Header(parts, version, digest)
    case Err(e) => Err(e)
    case Ok(h) => if mode.HashOnly? then Ok(digest(h)) else Ok(h + PadSignature(mode.sign(h)) + Payload(parts))
  }

  // ---------- the tool ----------

  function InOrder(se: Option<seq<Byte>>, bl: Option<seq<Byte>>, secondary: Option<seq<Byte>>, app: Option<seq<Byte>>)
    : (parts: seq<Part>)
    ensures |parts| <= 4
    ensures forall i, j :: 0 <= i < j < |parts| ==> parts[i].kind != parts[j].kind
  {
    (if se.Some? then [Part(SecureElement, se.value)] else []) +
    (if bl.Some? then [Part(Bootloader, bl.value)] else []) +
    (if secondary.Some? then [Part(Secondary, secondary.value)] else []) +
    (if app.Some? then [Part(Application, app.value)] else [])
  }

  method PackImages(se: Option<seq<Byte>>, bl: Option<seq<Byte>>, secondary: Option<seq<Byte>>, app: Option<seq<Byte>>,
                    headerVersion: int, digest: seq<Byte> -> Hash, mode: Mode)
    returns (r: Result<seq<Byte>, PackError>)
    ensures r == Packed(InOrder(se, bl, secondary, app), headerVersion, digest, mode)
  {
    hide Version, Descriptor, Le2, PadSignature;
    if se == None && bl == None && secondary == None && app == None {
      return Err(NoImage);
    }
    var parts: seq<Part> := [];
    if se.Some? {
      parts := parts + [Part(SecureElement, se.value)];
    }
    if bl.Some? {
      parts := parts + [Part(Bootloader, bl.value)];
    }
    if secondary.Some? {
      parts := parts + [Part(Secondary, secondary.value)];
    }
    if app.Some? {
      parts := parts + [Part(Application, app.value)];
    }
    assert parts == InOrder(se, bl, secondary, app);
    r := PackParts(parts, headerVersion, digest, mode);
  }

  method PackParts(parts: seq<Part>, headerVersion: int, digest: seq<Byte> -> Hash, mode: Mode)
    returns (r: Result<seq<Byte>, PackError>)
    requires 0 < |parts| <= 4
    ensures r == Packed(parts, headerVersion, digest, mode)
  {
    hide Version, Descriptor, Le2, PadSignature;
    if !(0 <= headerVersion < 0x1_0000) {
      return Err(HeaderVersionOutOfRange);
    }
    var offset := HeaderSize(|parts|);
    var descriptors: seq<Byte>, payload: seq<Byte> := [], [];
    for k := 0 to |parts|
      invariant Descriptors(parts, k, digest) == Ok(descriptors)
      invariant payload == Payload(parts[..k]) && offset == Offset(parts, k)
    {
      var part := parts[k];
      var version := Version(part);
      if version == None {
        FirstErrorStays(parts, k + 1, digest);
        return Err(ImageTooShort);
      }
      if |part.data| >= 0x1_0000_0000 || offset >= 0x1_0000_0000 {
        FirstErrorStays(parts, k + 1, digest);
        return Err(FieldTooLarge);
      }
      descriptors := descriptors + Descriptor(part, version.value, offset, digest(part.data));
      assert parts[..k + 1][..k] == parts[..k];
      offset := offset + |part.data|;
      payload := payload + part.data;
    }
    assert parts[..|parts|] == parts;
    var header := Le2(headerVersion) + Le2(|parts|) + descriptors;
    if mode.HashOnly? {
      return Ok(digest(header));
    }
    r := Ok(header + PadSignature(mode.sign(header)) + payload);
  }

  lemma {:induction false} FirstErrorStays(parts: seq<Part>, n: nat, digest: seq<Byte> -> Hash)
    requires n <= |parts| && Descriptors(parts, n, digest).Err?
    ensures Descriptors(parts, |parts|, digest) == Descriptors(parts, n, digest)
    decreases |parts| - n
  {
    if n < |parts| {
      FirstErrorStays(parts, n + 1, digest);
    }
  }

  // ---------- when packing fails ----------

  /** The version field lies inside the image. */
  predicate LongEnough(part: Part) {
    |part.data| >= if part.kind.SecureElement? then 322 else 376
  }

  /** Size and offset of part i fit their fields. */
  predicate SizesFit(parts: seq<Part>, i: nat)
    requires i < |parts|
  {
    |parts[i].data| < 0x1_0000_0000 && 260 + 48 * |parts| + |Payload(parts[..i])| < 0x1_0000_0000
  }

  predicate FirstBad(parts: seq<Part>, i: nat) {
    && i < |parts| && !(LongEnough(parts[i]) && SizesFit(parts, i))
    && forall j :: 0 <= j < i ==> LongEnough(parts[j]) && SizesFit(parts, j)
  }

  function Reason(part: Part): PackError {
    if LongEnough(part) then FieldTooLarge else ImageTooShort
  }

  lemma NoDescriptors(parts: seq<Part>, digest: seq<Byte> -> Hash)
    ensures Descriptors(parts, 0, digest) == Ok([])
  {}

  lemma DescriptorsStep(parts: seq<Part>, n: nat, digest: seq<Byte> -> Hash)
    requires 0 < n <= |parts|
    ensures var before, now := Descriptors(parts, n - 1, digest), Descriptors(parts, n, digest);
      && (before.Err? ==> now == before)
      && (before.Ok? ==> (now.Ok? <==> LongEnough(parts[n - 1]) && SizesFit(parts, n - 1)))
      && (before.Ok? && now.Err? ==> now.error == Reason(parts[n - 1]))
  {
    hide Descriptor, Version, Offset, LongEnough, SizesFit;
    DescribedIs(parts, n - 1);
  }

  lemma {:induction false} DescriptorsFail(parts: seq<Part>, n: nat, digest: seq<Byte> -> Hash) returns (i: nat)
    requires n <= |parts|
    ensures Descriptors(parts, n, digest).Ok? ==> forall j :: 0 <= j < n ==> LongEnough(parts[j]) && SizesFit(parts, j)
    ensures Descriptors(parts, n, digest).Err? ==>
      i < n && FirstBad(parts, i) && Descriptors(parts, n, digest).error == Reason(parts[i])
  {
    hide LongEnough, SizesFit, Reason, Descriptors;
    i := 0;
    if n == 0 {
      NoDescriptors(parts, digest);
    } else {
      i := DescriptorsFail(parts, n - 1, digest);
      DescriptorsStep(parts, n, digest);
      if Descriptors(parts, n - 1, digest).Ok? {
        i := n - 1;
      }
    }
  }

  lemma DescribedIs(parts: seq<Part>, i: nat)
    requires i < |parts|
    ensures Version(parts[i]).Some? <==> LongEnough(parts[i])
    ensures SizesFit(parts, i) <==> |parts[i].data| < 0x1_0000_0000 && Offset(parts, i) < 0x1_0000_0000
  {}

  /** Packing fails without a part, for a header version that does not fit its two bytes, and otherwise for the first
      part that is too short to hold its version or whose size or offset does not fit four bytes. */
  lemma WhenPackingFails(parts: seq<Part>, version: int, digest: seq<Byte> -> Hash, mode: Mode)
    ensures Packed(parts, version, digest, mode) == Err(NoImage) <==> parts == []
    ensures Packed(parts, version, digest, mode) == Err(HeaderVersionOutOfRange) <==>
      parts != [] && !(0 <= version < 65536)
    ensures forall e :: Packed(parts, version, digest, mode) == Err(e) && e != NoImage && e != HeaderVersionOutOfRange ==>
      exists i: nat :: i < |parts| && FirstBad(parts, i) && e == Reason(parts[i])
    ensures Packed(parts, version, digest, mode).Ok? <==>
      parts != [] && 0 <= version < 65536 && forall i :: 0 <= i < |parts| ==> LongEnough(parts[i]) && SizesFit(parts, i)
  {
    hide Descriptors, Payload;
    var i := DescriptorsFail(parts, |parts|, digest);
  }

  // ---------- extraction by the packer's own layout ----------

  /** A descriptor as a device reads it. */
  datatype Entry = Entry(identifier: nat, size: nat, version: nat, offset: nat, hash: seq<Byte>)

  function ReadEntry(file: seq<Byte>, i: nat): Entry
    requires PREFIX_BYTES + DESCRIPTOR_BYTES * (i + 1) <= |file|
  {
    var at := PREFIX_BYTES + DESCRIPTOR_BYTES * i;
    Entry(Num4(file[at..at + 4]), Num4(file[at + 4..at + 8]), Num4(file[at + 8..at + 12]), Num4(file[at + 12..at + 16]),
          file[at + 16..at + 48])
  }

  lemma DescriptorSlices(part: Part, version: nat, offset: nat, hash: Hash)
    ensures var d := Descriptor(part, version, offset, hash);
      && d[0..4] == Le4(Identifier(part.kind)) && d[4..8] == Le4(|part.data|) && d[8..12] == Le4(version)
      && d[12..16] == Le4(offset) && d[16..48] == hash
  {
    hide Le4;
  }

  /** The descriptor of part i inside the first n. */
  lemma {:induction false} DescriptorAt(parts: seq<Part>, n: nat, i: nat, digest: seq<Byte> -> Hash)
    requires i < n <= |parts| && Descriptors(parts, n, digest).Ok?
    ensures Version(parts[i]).Some? && |parts[i].data| < 0x1_0000_0000 && Offset(parts, i) < 0x1_0000_0000
    ensures Descriptors(parts, n, digest).value[DESCRIPTOR_BYTES * i..DESCRIPTOR_BYTES * (i + 1)] ==
            Descriptor(parts[i], Version(parts[i]).value, Offset(parts, i), digest(parts[i].data))
  {
    hide Version, Descriptor, Offset;
    if i < n - 1 {
      DescriptorAt(parts, n - 1, i, digest);
    }
  }

  /** The payload of part i inside that of the first n. */
  lemma {:induction false} PayloadAt(parts: seq<Part>, n: nat, i: nat)
    requires i < n <= |parts|
    ensures var lo, hi := |Payload(parts[..i])|, |Payload(parts[..i + 1])|;
      lo + |parts[i].data| == hi <= |Payload(parts[..n])| && Payload(parts[..n])[lo..hi] == parts[i].data
  {
    assert parts[..n][..n - 1] == parts[..n - 1];
    if i < n - 1 {
      PayloadAt(parts, n - 1, i);
    }
  }

  lemma EntryOfDescriptor(file: seq<Byte>, i: nat, part: Part, version: nat, offset: nat, hash: Hash)
    requires PREFIX_BYTES + DESCRIPTOR_BYTES * (i + 1) <= |file|
    requires file[PREFIX_BYTES + DESCRIPTOR_BYTES * i..PREFIX_BYTES + DESCRIPTOR_BYTES * (i + 1)] ==
             Descriptor(part, version, offset, hash)
    requires |part.data| < 0x1_0000_0000 && version < 0x1_0000_0000 && offset < 0x1_0000_0000
    ensures ReadEntry(file, i) == Entry(Identifier(part.kind), |part.data|, version, offset, hash)
  {
    hide Le4, Num4, Descriptor;
    var at := PREFIX_BYTES + DESCRIPTOR_BYTES * i;
    DescriptorSlices(part, version, offset, hash);
    LeRoundTrip(Identifier(part.kind));
    LeRoundTrip(|part.data|);
    LeRoundTrip(version);
    LeRoundTrip(offset);
    SliceOfSlice(file, at, at + 48, 0, 4);
    SliceOfSlice(file, at, at + 48, 4, 8);
    SliceOfSlice(file, at, at + 48, 8, 12);
    SliceOfSlice(file, at, at + 48, 12, 16);
    SliceOfSlice(file, at, at + 48, 16, 48);
  }

  /** What each descriptor promises: the part's fields, and that its slice of the file is the part's data. */
  predicate EntryIsRight(file: seq<Byte>, parts: seq<Part>, i: nat, digest: seq<Byte> -> Hash)
    requires i < |parts|
  {
    && PREFIX_BYTES + DESCRIPTOR_BYTES * (i + 1) <= |file|
    && var e := ReadEntry(file, i);
      && Version(parts[i]) == Some(e.version)
      && e.identifier == Identifier(parts[i].kind) && e.hash == digest(parts[i].data)
      && e.offset + e.size <= |file| && file[e.offset..e.offset + e.size] == parts[i].data
  }

  /** How far a signature of n bytes pushes the parts behind their offsets. */
  function Shift(n: nat): nat { if n <= SIGNATURE_BYTES then 0 else n - SIGNATURE_BYTES }

  /** Where part i really lies: at its offset, moved by what the signature has beyond 256 bytes. */
  lemma PartLies(parts: seq<Part>, version: int, digest: seq<Byte> -> Hash, sign: seq<Byte> -> seq<Byte>, i: nat)
    requires i < |parts| && Packed(parts, version, digest, WithSignature(sign)).Ok?
    ensures var file := Packed(parts, version, digest, WithSignature(sign)).value;
      var at := Offset(parts, i) + Shift(|sign(Header(parts, version, digest).value)|);
      at + |parts[i].data| <= |file| && file[at..at + |parts[i].data|] == parts[i].data
  {
    hide Version, Descriptor, Payload, Descriptors;
    var file := Packed(parts, version, digest, WithSignature(sign)).value;
    var h := Header(parts, version, digest).value;
    assert file == (h + PadSignature(sign(h))) + Payload(parts);
    PayloadAt(parts, |parts|, i);
    assert parts[..|parts|] == parts;
    var start := HeaderSize(|parts|) + Shift(|sign(h)|);
    assert file[start..] == Payload(parts);
    SliceOfSlice(file, start, |file|, |Payload(parts[..i])|, |Payload(parts[..i + 1])|);
  }

  lemma EntryAt(parts: seq<Part>, version: int, digest: seq<Byte> -> Hash, sign: seq<Byte> -> seq<Byte>, i: nat)
    requires i < |parts| && Packed(parts, version, digest, WithSignature(sign)).Ok?
    requires |sign(Header(parts, version, digest).value)| <= SIGNATURE_BYTES
    ensures var file := Packed(parts, version, digest, WithSignature(sign)).value;
      EntryIsRight(file, parts, i, digest) && ReadEntry(file, i).offset == Offset(parts, i)
  {
    hide Version, Descriptor, PadSignature, ReadEntry, Payload;
    var file := Packed(parts, version, digest, WithSignature(sign)).value;
    var h := Header(parts, version, digest).value;
    var ds := Descriptors(parts, |parts|, digest).value;
    var rest := PadSignature(sign(h)) + Payload(parts);
    assert file == h + rest;
    DescriptorAt(parts, |parts|, i, digest);
    var lo, hi := DESCRIPTOR_BYTES * i, DESCRIPTOR_BYTES * (i + 1);
    assert file[PREFIX_BYTES..PREFIX_BYTES + |ds|] == ds;
    SliceOfSlice(file, PREFIX_BYTES, PREFIX_BYTES + |ds|, lo, hi);
    EntryOfDescriptor(file, i, parts[i], Version(parts[i]).value, Offset(parts, i), digest(parts[i].data));
    PartLies(parts, version, digest, sign, i);
  }

  /** Tiling: each descriptor's slice is its part, and the slices follow each other from the padded header to the
      end. */
  lemma PackageTiles(parts: seq<Part>, version: int, digest: seq<Byte> -> Hash, sign: seq<Byte> -> seq<Byte>)
    requires Packed(parts, version, digest, WithSignature(sign)).Ok?
    requires |sign(Header(parts, version, digest).value)| <= SIGNATURE_BYTES
    ensures var file := Packed(parts, version, digest, WithSignature(sign)).value;
      && (forall i :: 0 <= i < |parts| ==> EntryIsRight(file, parts, i, digest))
      && ReadEntry(file, 0).offset == HeaderSize(|parts|)
      && (forall i :: 0 < i < |parts| ==>
          ReadEntry(file, i).offset == ReadEntry(file, i - 1).offset + ReadEntry(file, i - 1).size)
      && ReadEntry(file, |parts| - 1).offset + ReadEntry(file, |parts| - 1).size == |file|
  {
    hide ReadEntry, Version, Descriptors, PadSignature;
    var file := Packed(parts, version, digest, WithSignature(sign)).value;
    forall i | 0 <= i < |parts|
      ensures EntryIsRight(file, parts, i, digest) && ReadEntry(file, i).offset == Offset(parts, i)
      ensures ReadEntry(file, i).offset + ReadEntry(file, i).size == Offset(parts, i + 1)
    {
      EntryAt(parts, version, digest, sign, i);
      PayloadAt(parts, |parts|, i);
    }
    assert parts[..0] == [] && parts[..|parts|] == parts;
    assert EntryIsRight(file, parts, 0, digest) && EntryIsRight(file, parts, |parts| - 1, digest);
    EndOfPackage(parts, version, digest, sign);
  }

  /** The last part ends with the file exactly when the signature is at most 256 bytes. */
  lemma EndOfPackage(parts: seq<Part>, version: int, digest: seq<Byte> -> Hash, sign: seq<Byte> -> seq<Byte>)
    requires Packed(parts, version, digest, WithSignature(sign)).Ok?
    ensures Offset(parts, |parts|) == |Packed(parts, version, digest, WithSignature(sign)).value| <==>
            |sign(Header(parts, version, digest).value)| <= SIGNATURE_BYTES
  {
    assert parts[..|parts|] == parts;
  }

  /** Signing elsewhere: the hash handed out is that of exactly the bytes before the signature in the finished package,
      and the signature stands right behind them. */
  lemma SignedElsewhere(parts: seq<Part>, version: int, digest: seq<Byte> -> Hash, sign: seq<Byte> -> seq<Byte>,
                        file: seq<Byte>)
    requires Packed(parts, version, digest, WithSignature(sign)) == Ok(file) && |parts| < 0x1_0000
    ensures var end := PREFIX_BYTES + DESCRIPTOR_BYTES * |parts|;
      && end <= |file| && Packed(parts, version, digest, HashOnly) == Ok(digest(file[..end]))
      && sign(file[..end]) <= file[end..] && Num2(file[0..2]) == version && Num2(file[2..4]) == |parts|
  {
    hide Descriptors, Le2, Num2, Payload;
    var h := Header(parts, version, digest).value;
    assert file == h + (PadSignature(sign(h)) + Payload(parts));
    SignedPart(h, sign(h), Payload(parts));
    assert file[0..2] == Le2(version) && file[2..4] == Le2(|parts|);
    LeRoundTrip(version);
    LeRoundTrip(|parts|);
  }

  lemma SignedPart(header: seq<Byte>, signature: seq<Byte>, payload: seq<Byte>)
    ensures var file := header + (PadSignature(signature) + payload);
      file[..|header|] == header && signature <= file[|header|..]
  {
    assert (header + (PadSignature(signature) + payload))[|header|..] == PadSignature(signature) + payload;
  }

  // ---------- what a package holds ----------

  /** The version an image file holds: for the secure element the three bytes from 0x13E on, else the four from 0x174 on,
      the highest byte first. */
  function FileVersion(data: seq<Byte>, secureElement: bool): (v: nat)
    requires |data| >= if secureElement then 0x13E + 4 else 0x174 + 4
  {
    if secureElement then
      LittleEndian([data[0x140], data[0x13F], data[0x13E]])
    else
      LittleEndian([data[0x177], data[0x176], data[0x175], data[0x174]])
  }

  lemma VersionIs(part: Part)
    ensures var se := part.kind.SecureElement?;
      && (Version(part).Some? <==> |part.data| >= if se then 0x13E + 4 else 0x174 + 4)
      && (Version(part).Some? ==> Version(part).value == FileVersion(part.data, se))
  {
    hide LittleEndian;
    if Version(part).Some? {
      var d := part.data;
      if part.kind.SecureElement? {
        NumbersAre([d[0x141], d[0x140], d[0x13F], d[0x13E]]);
        ThreeOfFour(d[0x141], [d[0x140], d[0x13F], d[0x13E]]);
        assert [d[0x141], d[0x140], d[0x13F], d[0x13E]] == [d[0x141]] + [d[0x140], d[0x13F], d[0x13E]];
      } else {
        NumbersAre([d[0x177], d[0x176], d[0x175], d[0x174]]);
      }
    }
  }

  lemma ThreeOfFour(low: Byte, high: seq<Byte>)
    ensures LittleEndian([low] + high) / 256 == LittleEndian(high)
  {
    assert ([low] + high)[1..] == high;
  }

  /** Entry i of the package belongs to this image: its identifier, size, version, hash and bytes. */
  predicate HoldsImage(file: seq<Byte>, i: nat, identifier: nat, data: seq<Byte>, version: nat, hash: seq<Byte>) {
    && 4 + 48 * i + 48 <= |file|
    && var at := 4 + 48 * i;
       var offset := LittleEndian(file[at + 12..at + 16]);
    && LittleEndian(file[at..at + 4]) == identifier && LittleEndian(file[at + 4..at + 8]) == |data|
    && LittleEndian(file[at + 8..at + 12]) == version && file[at + 16..at + 48] == hash
    && offset + |data| <= |file| && file[offset..offset + |data|] == data
  }

  /** The same for an image that may not be given, with the version it holds. */
  predicate HoldsIfGiven(file: seq<Byte>, i: nat, identifier: nat, image: Option<seq<Byte>>, secureElement: bool,
                         digest: seq<Byte> -> Hash) {
    match image
    case None => true
    case Some(data) =>
      && |data| >= (if secureElement then 0x13E + 4 else 0x174 + 4)
      && HoldsImage(file, i, identifier, data, FileVersion(data, secureElement), digest(data))
  }

  lemma EntryHolds(parts: seq<Part>, version: int, digest: seq<Byte> -> Hash, sign: seq<Byte> -> seq<Byte>, i: nat,
                   file: seq<Byte>)
    requires Packed(parts, version, digest, WithSignature(sign)) == Ok(file) && i < |parts|
    requires |sign(Header(parts, version, digest).value)| <= SIGNATURE_BYTES
    ensures Version(parts[i]).Some?
    ensures HoldsImage(file, i, Identifier(parts[i].kind), parts[i].data, Version(parts[i]).value, digest(parts[i].data))
  {
    hide Packed, Header, LittleEndian, Num4, Version;
    EntryAt(parts, version, digest, sign, i);
    var at := 4 + 48 * i;
    NumbersAre(file[at..at + 4]);
    NumbersAre(file[at + 4..at + 8]);
    NumbersAre(file[at + 8..at + 12]);
    NumbersAre(file[at + 12..at + 16]);
    EntrySize(parts, version, digest, sign, i);
  }

  lemma EntrySize(parts: seq<Part>, version: int, digest: seq<Byte> -> Hash, sign: seq<Byte> -> seq<Byte>, i: nat)
    requires i < |parts| && Packed(parts, version, digest, WithSignature(sign)).Ok?
    requires |sign(Header(parts, version, digest).value)| <= SIGNATURE_BYTES
    ensures var file := Packed(parts, version, digest, WithSignature(sign)).value;
      PREFIX_BYTES + DESCRIPTOR_BYTES * (i + 1) <= |file| && ReadEntry(file, i).size == |parts[i].data|
  {
    hide Packed, Header, ReadEntry, Version;
    EntryAt(parts, version, digest, sign, i);
  }

  /** The front of a package: version and number of images, the entries, and behind them the signature of all that,
      filled up with zeros to 256 bytes. */
  predicate FrontHolds(file: seq<Byte>, n: nat, version: int, sign: seq<Byte> -> seq<Byte>) {
    var end := 4 + 48 * n;
    && |file| >= end && LittleEndian(file[0..2]) == version && LittleEndian(file[2..4]) == n
    && sign(file[..end]) <= file[end..]
    && (|sign(file[..end])| <= 256 ==>
        |file| >= end + 256 && file[end + |sign(file[..end])|..end + 256] == Zeros(256 - |sign(file[..end])|))
  }

  lemma PackageFront(parts: seq<Part>, version: int, digest: seq<Byte> -> Hash, sign: seq<Byte> -> seq<Byte>,
                     file: seq<Byte>)
    requires Packed(parts, version, digest, WithSignature(sign)) == Ok(file) && |parts| < 0x1_0000
    ensures FrontHolds(file, |parts|, version, sign) && Header(parts, version, digest) == Ok(file[..4 + 48 * |parts|])
  {
    hide Packed, Header, LittleEndian, Version;
    SignedElsewhere(parts, version, digest, sign, file);
    NumbersAre(file[0..2]);
    NumbersAre(file[2..4]);
    PaddedWithZeros(parts, version, digest, sign, file);
  }

  /** A package holds, in this order, the secure element under 0xF1, the bootloader under 0xF2, the secondary application
      under 0xF3 and the application under 0xF0, as far as given, each with its own version; their number and the header
      version stand in front, and behind the entries the signature of all that, filled up with zeros to 256 bytes. */
  lemma PackageHolds(se: Option<seq<Byte>>, bl: Option<seq<Byte>>, secondary: Option<seq<Byte>>, app: Option<seq<Byte>>,
                     version: int, digest: seq<Byte> -> Hash, sign: seq<Byte> -> seq<Byte>, file: seq<Byte>)
    requires Packed(InOrder(se, bl, secondary, app), version, digest, WithSignature(sign)) == Ok(file)
    ensures var i := if se.Some? then 1 else 0;
      var j := i + if bl.Some? then 1 else 0;
      var k := j + if secondary.Some? then 1 else 0;
      var n := k + if app.Some? then 1 else 0;
      && FrontHolds(file, n, version, sign)
      && (|sign(file[..4 + 48 * n])| <= 256 ==>
          && HoldsIfGiven(file, 0, 0xF1, se, true, digest) && HoldsIfGiven(file, i, 0xF2, bl, false, digest)
          && HoldsIfGiven(file, j, 0xF3, secondary, false, digest) && HoldsIfGiven(file, k, 0xF0, app, false, digest))
  {
    hide Packed, Header, LittleEndian, Version, HoldsImage, FileVersion;
    var parts := InOrder(se, bl, secondary, app);
    PackageFront(parts, version, digest, sign, file);
    hide FrontHolds, PadSignature;
    if |sign(file[..4 + 48 * |parts|])| <= 256 {
      forall x: nat | x < |parts|
        ensures HoldsIfGiven(file, x, Identifier(parts[x].kind), Some(parts[x].data), parts[x].kind.SecureElement?, digest)
      {
        PartHolds(parts, version, digest, sign, x, file);
      }
      InOrderAre(se, bl, secondary, app);
    }
  }

  lemma InOrderAre(se: Option<seq<Byte>>, bl: Option<seq<Byte>>, secondary: Option<seq<Byte>>, app: Option<seq<Byte>>)
    ensures var parts := InOrder(se, bl, secondary, app);
      var i := if se.Some? then 1 else 0;
      var j := i + if bl.Some? then 1 else 0;
      var k := j + if secondary.Some? then 1 else 0;
      && |parts| == k + (if app.Some? then 1 else 0)
      && (se.Some? ==> parts[0] == Part(SecureElement, se.value))
      && (bl.Some? ==> parts[i] == Part(Bootloader, bl.value))
      && (secondary.Some? ==> parts[j] == Part(Secondary, secondary.value))
      && (app.Some? ==> parts[k] == Part(Application, app.value))
  {}

  lemma PartHolds(parts: seq<Part>, version: int, digest: seq<Byte> -> Hash, sign: seq<Byte> -> seq<Byte>, i: nat,
                  file: seq<Byte>)
    requires Packed(parts, version, digest, WithSignature(sign)) == Ok(file) && i < |parts|
    requires |sign(Header(parts, version, digest).value)| <= SIGNATURE_BYTES
    ensures HoldsIfGiven(file, i, Identifier(parts[i].kind), Some(parts[i].data), parts[i].kind.SecureElement?, digest)
  {
    hide Packed, Header, Version, HoldsImage, FileVersion;
    EntryHolds(parts, version, digest, sign, i, file);
    VersionIs(parts[i]);
  }

  lemma PaddedWithZeros(parts: seq<Part>, version: int, digest: seq<Byte> -> Hash, sign: seq<Byte> -> seq<Byte>,
                        file: seq<Byte>)
    requires Packed(parts, version, digest, WithSignature(sign)) == Ok(file)
    ensures var end := PREFIX_BYTES + DESCRIPTOR_BYTES * |parts|;
      && end <= |file| && Header(parts, version, digest) == Ok(file[..end])
      && var n := |sign(file[..end])|;
      (n <= 256 ==> |file| >= end + 256 && file[end + n..end + 256] == Zeros(256 - n))
  {
    hide Descriptors, Le2, Payload;
    var h := Header(parts, version, digest).value;
    assert file == h + (PadSignature(sign(h)) + Payload(parts));
    assert file[..|h|] == h;
    if |sign(h)| <= 256 {
      var tail := PadSignature(sign(h)) + Payload(parts);
      assert file[|h|..] == tail;
      assert file[|h| + |sign(h)|..|h| + 256] == tail[|sign(h)|..256];
    }
  }
}
