/** The Zigbee OTA file (Zigbee Cluster Library Specification 07-5123, section 11.4): header, sub-elements, reader. */
module OtaFile {
  import opened Bytes
  import opened Results

  const FILE_ID := 0x0BEEF11E
  const MANUFACTURER_CODE := 0x10D0
  const HEADER_VERSION := 0x0100
  const ZIGBEE_VERSION := 0x0002
  const MIN_LEN := 56
  const SUBELEMENT_HEADER_LEN := 6
  const CRC_DATA_LEN := 16
  const TAG_MAIN_IMAGE := 0x0000
  const TAG_SIGNATURE := 0x0001
  const TAG_IMAGE_INTEGRITY := 0x0003
  const TAG_JUMPTABLE_IMAGE := 0xF000

  // ---------- the header ----------

  /** The header's fields; an optional one counts only when its bit of fieldControl is set. */
  datatype Fields = Fields(
    fileIdentifier: nat, headerVersion: nat, headerLength: nat, fieldControl: nat, manufacturer: nat, imageType: nat,
    fileVersion: nat, stackVersion: nat, headerString: seq<Byte>, imageSize: nat,
    securityVersion: nat, ieeeAddress: seq<Byte>, minHardware: nat, maxHardware: nat)

  predicate BitSet(v: nat, bit: nat)
    requires bit > 0
  {
    v / bit % 2 == 1
  }

  predicate HasSecurity(f: Fields) { BitSet(f.fieldControl, 1) }

  predicate HasDevice(f: Fields) { BitSet(f.fieldControl, 2) }

  predicate HasHardware(f: Fields) { BitSet(f.fieldControl, 4) }

  /** Every value fits its field, as struct.pack demands; the header string is cut or padded instead. */
  predicate Packable(f: Fields) {
    && f.fileIdentifier < 0x1_0000_0000 && f.headerVersion < 0x1_0000 && f.headerLength < 0x1_0000
    && f.fieldControl < 0x1_0000 && f.manufacturer < 0x1_0000 && f.imageType < 0x1_0000
    && f.fileVersion < 0x1_0000_0000 && f.stackVersion < 0x1_0000 && f.imageSize < 0x1_0000_0000
    && (HasSecurity(f) ==> f.securityVersion < 256)
    && (HasDevice(f) ==> |f.ieeeAddress| == 8)
    && (HasHardware(f) ==> f.minHardware < 0x1_0000 && f.maxHardware < 0x1_0000)
  }

  /** The "32s" field: cut to 32 bytes, padded with zeros. */
  function String32(s: seq<Byte>): (b: seq<Byte>)
    ensures |b| == 32
  {
    if |s| >= 32 then s[..32] else s + Zeros(32 - |s|)
  }

  function FixedPart(f: Fields): (b: seq<Byte>)
    ensures |b| == MIN_LEN
  {
    Le4(f.fileIdentifier) + Le2(f.headerVersion) + Le2(f.headerLength) + Le2(f.fieldControl) + Le2(f.manufacturer) +
    Le2(f.imageType) + Le4(f.fileVersion) + Le2(f.stackVersion) + String32(f.headerString) + Le4(f.imageSize)
  }

  function SecurityPart(f: Fields): seq<Byte>
    requires Packable(f)
  {
    if HasSecurity(f) then [f.securityVersion] else []
  }

  function DevicePart(f: Fields): seq<Byte> { if HasDevice(f) then f.ieeeAddress else [] }

  function HardwarePart(f: Fields): seq<Byte>
    requires Packable(f)
  {
    if HasHardware(f) then Le2(f.minHardware) + Le2(f.maxHardware) else []
  }

  function OptionalPart(f: Fields): (b: seq<Byte>)
    requires Packable(f)
    ensures |b| == OptionalLength(f.fieldControl)
  {
    SecurityPart(f) + DevicePart(f) + HardwarePart(f)
  }

  function OptionalLength(fieldControl: nat): nat {
    (if BitSet(fieldControl, 1) then 1 else 0) + (if BitSet(fieldControl, 2) then 8 else 0) +
    (if BitSet(fieldControl, 4) then 4 else 0)
  }

  function HeaderBytes(f: Fields): (b: seq<Byte>)
    requires Packable(f)
    ensures |b| == MIN_LEN + OptionalLength(f.fieldControl)
  {
    FixedPart(f) + OptionalPart(f)
  }

  /** The fields with the absent ones empty. */
  function Present(f: Fields): Fields {
    f.(securityVersion := if HasSecurity(f) then f.securityVersion else 0,
       ieeeAddress := if HasDevice(f) then f.ieeeAddress else [],
       minHardware := if HasHardware(f) then f.minHardware else 0,
       maxHardware := if HasHardware(f) then f.maxHardware else 0)
  }

  /** What reading gives back: the string padded, absent fields empty. */
  function Normal(f: Fields): Fields { Present(f).(headerString := String32(f.headerString)) }

  /** The fixed fields of a header, as struct.unpack gives them. */
  function Unpack(raw: seq<Byte>): Fields
    requires |raw| == MIN_LEN
  {
    Fields(Num4(raw[0..4]), Num2(raw[4..6]), Num2(raw[6..8]), Num2(raw[8..10]), Num2(raw[10..12]), Num2(raw[12..14]),
           Num4(raw[14..18]), Num2(raw[18..20]), raw[20..52], Num4(raw[52..56]), 0, [], 0, 0)
  }

  /** The fields with the optional ones taken from what follows the fixed part; absent ones empty. */
  function WithOptional(f: Fields, tail: seq<Byte>): Fields
    requires OptionalLength(f.fieldControl) <= |tail|
  {
    var device := if HasSecurity(f) then 1 else 0;
    var hardware := device + (if HasDevice(f) then 8 else 0);
    f.(securityVersion := if HasSecurity(f) then tail[0] else 0,
       ieeeAddress := if HasDevice(f) then tail[device..device + 8] else [],
       minHardware := if HasHardware(f) then Num2(tail[hardware..hardware + 2]) else 0,
       maxHardware := if HasHardware(f) then Num2(tail[hardware + 2..hardware + 4]) else 0)
  }

  /** The header at the start of a file, with the number of bytes read; None when the file is too short. */
  function ParseHeader(file: seq<Byte>): (r: Option<(Fields, nat)>)
    ensures r.Some? ==> MIN_LEN <= r.value.1 <= |file|
  {
    if |file| < MIN_LEN then None
    else
      var f, tail := Unpack(file[..MIN_LEN]), file[MIN_LEN..];
      if |tail| < OptionalLength(f.fieldControl) then None
      else Some((WithOptional(f, tail), MIN_LEN + OptionalLength(f.fieldControl)))
  }

  lemma FixedSlices(f: Fields)
    ensures var b := FixedPart(f);
      && b[0..4] == Le4(f.fileIdentifier) && b[4..6] == Le2(f.headerVersion) && b[6..8] == Le2(f.headerLength)
      && b[8..10] == Le2(f.fieldControl) && b[10..12] == Le2(f.manufacturer) && b[12..14] == Le2(f.imageType)
      && b[14..18] == Le4(f.fileVersion) && b[18..20] == Le2(f.stackVersion)
      && b[20..52] == String32(f.headerString) && b[52..56] == Le4(f.imageSize)
  {
    hide Le2, Le4, String32;
  }

  lemma FixedReadsBack(f: Fields)
    requires Packable(f)
    ensures Unpack(FixedPart(f)) == f.(headerString := String32(f.headerString), securityVersion := 0,
                                       ieeeAddress := [], minHardware := 0, maxHardware := 0)
  {
    hide Le2, Le4, Num2, Num4, String32, FixedPart, BitSet;
    FixedSlices(f);
    LeRoundTrip(f.fileIdentifier);
    LeRoundTrip(f.headerVersion);
    LeRoundTrip(f.headerLength);
    LeRoundTrip(f.fieldControl);
    LeRoundTrip(f.manufacturer);
    LeRoundTrip(f.imageType);
    LeRoundTrip(f.fileVersion);
    LeRoundTrip(f.stackVersion);
    LeRoundTrip(f.imageSize);
  }

  lemma OptionalReadsBack(f: Fields, u: Fields, rest: seq<Byte>)
    requires Packable(f) && u.fieldControl == f.fieldControl
    ensures WithOptional(u, OptionalPart(f) + rest) ==
            u.(securityVersion := Present(f).securityVersion, ieeeAddress := Present(f).ieeeAddress,
               minHardware := Present(f).minHardware, maxHardware := Present(f).maxHardware)
  {
    hide Le2, Num2, BitSet, OptionalPart;
    LeRoundTrip(f.minHardware);
    LeRoundTrip(f.maxHardware);
    OptionalSlices(f, rest);
  }

  /** A serialised header reads back, and reading stops right behind it. */
  lemma {:induction false} HeaderRoundTrip(f: Fields, rest: seq<Byte>)
    requires Packable(f)
    ensures ParseHeader(HeaderBytes(f) + rest) == Some((Normal(f), |HeaderBytes(f)|))
  {
    hide String32, FixedPart, BitSet, OptionalPart, WithOptional, Unpack;
    var b := HeaderBytes(f) + rest;
    assert b == FixedPart(f) + (OptionalPart(f) + rest);
    assert b[..MIN_LEN] == FixedPart(f) && b[MIN_LEN..] == OptionalPart(f) + rest;
    FixedReadsBack(f);
    OptionalReadsBack(f, Unpack(FixedPart(f)), rest);
  }

  lemma OptionalIs(f: Fields, rest: seq<Byte>)
    requires Packable(f)
    ensures OptionalPart(f) + rest == SecurityPart(f) + (DevicePart(f) + (HardwarePart(f) + rest))
  {
    hide Le2, BitSet;
  }

  lemma InThree<T>(a: seq<T>, b: seq<T>, c: seq<T>, rest: seq<T>)
    ensures var t := a + (b + (c + rest));
      && t[..|a|] == a && t[|a|..|a| + |b|] == b
      && forall i, j :: 0 <= i <= j <= |c| ==> t[|a| + |b| + i..|a| + |b| + j] == c[i..j]
  {}

  lemma OptionalSlices(f: Fields, rest: seq<Byte>)
    requires Packable(f)
    ensures var t := OptionalPart(f) + rest;
      var device := if HasSecurity(f) then 1 else 0;
      var hardware := device + if HasDevice(f) then 8 else 0;
      && (HasSecurity(f) ==> t[0] == f.securityVersion)
      && (HasDevice(f) ==> t[device..device + 8] == f.ieeeAddress)
      && (HasHardware(f) ==> t[hardware..hardware + 2] == Le2(f.minHardware) &&
                             t[hardware + 2..hardware + 4] == Le2(f.maxHardware))
  {
    hide Le2, BitSet;
    OptionalIs(f, rest);
    InThree(SecurityPart(f), DevicePart(f), HardwarePart(f), rest);
    hide OptionalPart;
    if HasHardware(f) {
      assert HardwarePart(f)[0..2] == Le2(f.minHardware) && HardwarePart(f)[2..4] == Le2(f.maxHardware);
    }
  }

  /** An open file: its bytes and the position reading has reached. */
  class OpenFile {
    const bytes: seq<Byte>
    var pos: nat

    constructor (bytes: seq<Byte>)
      ensures this.bytes == bytes && pos == 0
    {
      this.bytes, pos := bytes, 0;
    }

    /** What has not been read yet. */
    function Rest(): seq<Byte>
      reads this
    {
      if pos <= |bytes| then bytes[pos..] else []
    }

    /** The next n bytes, or as many as there are. */
    method Read(n: nat) returns (data: seq<Byte>)
      modifies this
      ensures |data| == if n <= |old(Rest())| then n else |old(Rest())|
      ensures data == old(Rest())[..|data|] && Rest() == old(Rest())[|data|..]
      ensures pos == old(pos) + |data|
    {
      var end := if pos + n <= |bytes| then pos + n else |bytes|;
      if end <= pos {
        return [];
      }
      data := bytes[pos..end];
      pos := end;
    }
  }

  /** The optional fields that are present are those behind the fixed part. */
  predicate OptionalAre(tail: seq<Byte>, f: Fields)
    requires OptionalLength(f.fieldControl) <= |tail|
  {
    Present(f) == WithOptional(f, tail)
  }

  /** The optional fields, each read from what the ones before have left. */
  lemma OptionalTogether(tail: seq<Byte>, behindSecurity: seq<Byte>, behindDevice: seq<Byte>, f: Fields)
    requires OptionalLength(f.fieldControl) <= |tail|
    requires if HasSecurity(f) then f.securityVersion == tail[0] && behindSecurity == tail[1..]
             else behindSecurity == tail
    requires if HasDevice(f) then f.ieeeAddress == behindSecurity[..8] && behindDevice == behindSecurity[8..]
             else behindDevice == behindSecurity
    requires HasHardware(f) ==>
      f.minHardware == Num2(behindDevice[..2]) && f.maxHardware == Num2(behindDevice[2..4])
    ensures OptionalAre(tail, f)
  {
    hide Num2, BitSet;
    var device := if HasSecurity(f) then 1 else 0;
    var hardware := device + (if HasDevice(f) then 8 else 0);
    assert behindSecurity == tail[device..] && behindDevice == tail[hardware..];
    if HasDevice(f) {
      assert behindSecurity[..8] == tail[device..device + 8];
    }
    if HasHardware(f) {
      assert behindDevice[..2] == tail[hardware..hardware + 2];
      assert behindDevice[2..4] == tail[hardware + 2..hardware + 4];
    }
  }

  /** The fields with the optional ones of g. */
  function OptionalOf(f: Fields, g: Fields): Fields {
    f.(securityVersion := g.securityVersion, ieeeAddress := g.ieeeAddress,
       minHardware := g.minHardware, maxHardware := g.maxHardware)
  }

  lemma FieldsAreParsed(file: seq<Byte>, f: Fields)
    requires MIN_LEN + OptionalLength(f.fieldControl) <= |file|
    requires f == OptionalOf(Unpack(file[..MIN_LEN]), f) && OptionalAre(file[MIN_LEN..], f)
    ensures ParseHeader(file) == Some((Normal(f), MIN_LEN + OptionalLength(f.fieldControl)))
  {
    hide Num2, Num4, BitSet;
    assert f.headerString == Unpack(file[..MIN_LEN]).headerString;
    assert String32(f.headerString) == f.headerString;
  }

  lemma NoHeader(file: seq<Byte>)
    requires |file| < MIN_LEN
    ensures ParseHeader(file) == None
  {}

  lemma HeaderIsCut(file: seq<Byte>, f: Fields)
    requires MIN_LEN <= |file| < MIN_LEN + OptionalLength(f.fieldControl)
    requires f == OptionalOf(Unpack(file[..MIN_LEN]), f)
    ensures ParseHeader(file) == None
  {
    hide Unpack, OptionalLength;
  }

  /** Set one bit of a field. */
  function WithBit(v: nat, bit: nat): nat
    requires bit > 0
  {
    if BitSet(v, bit) then v else v + bit
  }

  class Header {
    var fileIdentifier: nat
    var headerVersion: nat
    var headerLength: nat
    var fieldControl: nat
    var manufacturer: nat
    var imageType: nat
    var fileVersion: nat
    var stackVersion: nat
    var headerString: seq<Byte>
    var imageSize: nat
    var securityVersion: nat
    var ieeeAddress: seq<Byte>
    var minHardware: nat
    var maxHardware: nat
    /** How often each optional setter was called. */
    ghost var securityCalls: nat
    ghost var deviceCalls: nat
    ghost var hardwareCalls: nat

    function Now(): Fields
      reads this
    {
      Fields(fileIdentifier, headerVersion, headerLength, fieldControl, manufacturer, imageType, fileVersion,
             stackVersion, headerString, imageSize, securityVersion, ieeeAddress, minHardware, maxHardware)
    }

    /** The bits and the length field record the setter calls. */
    ghost predicate Tracked()
      reads this
    {
      Tracks(Now(), securityCalls, deviceCalls, hardwareCalls)
    }

    constructor (headerString: seq<Byte>, fileVersion: int, imageType: int)
      ensures Tracked() && securityCalls == deviceCalls == hardwareCalls == 0
      ensures Now() == Fields(FILE_ID, HEADER_VERSION, MIN_LEN, 0, MANUFACTURER_CODE, imageType % 0x1_0000,
        fileVersion % 0x1_0000_0000, ZIGBEE_VERSION, if |headerString| > 32 then headerString[..32] else headerString,
        0, 0, [], 0, 0)
    {
      fileIdentifier, headerVersion, headerLength, fieldControl := FILE_ID, HEADER_VERSION, MIN_LEN, 0;
      manufacturer, stackVersion := MANUFACTURER_CODE, ZIGBEE_VERSION;
      this.imageType, this.fileVersion := imageType % 0x1_0000, fileVersion % 0x1_0000_0000;
      this.headerString := if |headerString| > 32 then headerString[..32] else headerString;
      imageSize, securityVersion, ieeeAddress, minHardware, maxHardware := 0, 0, [], 0, 0;
      securityCalls, deviceCalls, hardwareCalls := 0, 0, 0;
    }

    method SetSecurityCredentialVersion(version: nat)
      requires Tracked()
      modifies this
      ensures Tracked() && securityCalls == old(securityCalls) + 1
      ensures deviceCalls == old(deviceCalls) && hardwareCalls == old(hardwareCalls)
      ensures Now() == old(Now()).(securityVersion := version, fieldControl := WithBit(old(fieldControl), 1),
                                   headerLength := old(headerLength) + 1)
    {
      securityVersion := version;
      fieldControl := WithBit(fieldControl, 1);
      headerLength := headerLength + 1;
      securityCalls := securityCalls + 1;
    }

    method SetHardwareVersion(minVersion: nat, maxVersion: nat)
      requires Tracked()
      modifies this
      ensures Tracked() && hardwareCalls == old(hardwareCalls) + 1
      ensures deviceCalls == old(deviceCalls) && securityCalls == old(securityCalls)
      ensures Now() == old(Now()).(minHardware := minVersion, maxHardware := maxVersion,
                                   fieldControl := WithBit(old(fieldControl), 4), headerLength := old(headerLength) + 4)
    {
      minHardware, maxHardware := minVersion, maxVersion;
      fieldControl := WithBit(fieldControl, 4);
      headerLength := headerLength + 4;
      hardwareCalls := hardwareCalls + 1;
    }

    method SetDeviceSpecific(address: seq<Byte>)
      requires Tracked()
      modifies this
      ensures Tracked() && deviceCalls == old(deviceCalls) + 1
      ensures securityCalls == old(securityCalls) && hardwareCalls == old(hardwareCalls)
      ensures Now() == old(Now()).(ieeeAddress := address, fieldControl := WithBit(old(fieldControl), 2),
                                   headerLength := old(headerLength) + 8)
    {
      ieeeAddress := address;
      fieldControl := WithBit(fieldControl, 2);
      headerLength := headerLength + 8;
      deviceCalls := deviceCalls + 1;
    }

    method SetTotalOtaFileSize(size: nat)
      modifies this`imageSize
      ensures Now() == old(Now()).(imageSize := size)
    {
      imageSize := size;
    }

    /** Fill the fields from an open file, wherever it stands; absent optional fields keep the values they had. */
    method FromFile(fd: OpenFile) returns (ok: bool)
      modifies this, fd
      ensures fd.pos >= old(fd.pos)
      ensures ok <==> ParseHeader(old(fd.Rest())).Some?
      ensures ok ==> ParseHeader(old(fd.Rest())) == Some((Normal(Now()), fd.pos - old(fd.pos)))
      ensures ok ==> (HasSecurity(Now()) || securityVersion == old(securityVersion)) &&
                     (HasDevice(Now()) || ieeeAddress == old(ieeeAddress)) &&
                     (HasHardware(Now()) || (minHardware == old(minHardware) && maxHardware == old(maxHardware)))
    {
      hide Unpack, OptionalAre, OptionalLength, BitSet, Normal, ParseHeader;
      ghost var file := fd.Rest();
      ok := FixedFromFile(fd);
      if ok {
        ghost var f := Now();
        ok := OptionalFromFile(fd);
        if ok {
          FieldsAreParsed(file, Now());
        } else {
          HeaderIsCut(file, f);
        }
      } else {
        NoHeader(file);
      }
    }

    /** The first half of FromFile. */
    method FixedFromFile(fd: OpenFile) returns (ok: bool)
      modifies this, fd
      ensures fd.pos >= old(fd.pos)
      ensures ok <==> |old(fd.Rest())| >= MIN_LEN
      ensures ok ==> fd.pos == old(fd.pos) + MIN_LEN && fd.Rest() == old(fd.Rest())[MIN_LEN..] &&
                     Now() == OptionalOf(Unpack(old(fd.Rest())[..MIN_LEN]), Now())
      ensures securityVersion == old(securityVersion) && ieeeAddress == old(ieeeAddress)
      ensures minHardware == old(minHardware) && maxHardware == old(maxHardware)
    {
      hide Unpack, OptionalOf;
      var raw := fd.Read(MIN_LEN);
      if |raw| != MIN_LEN {
        return false;
      }
      SetFixed(Unpack(raw));
      ok := true;
    }

    method SetFixed(u: Fields)
      modifies this`fileIdentifier, this`headerVersion, this`headerLength, this`fieldControl, this`manufacturer
      modifies this`imageType, this`fileVersion, this`stackVersion, this`headerString, this`imageSize
      ensures Now() == OptionalOf(u, Now())
    {
      fileIdentifier, headerVersion, headerLength := u.fileIdentifier, u.headerVersion, u.headerLength;
      fieldControl, manufacturer, imageType := u.fieldControl, u.manufacturer, u.imageType;
      fileVersion, stackVersion, headerString := u.fileVersion, u.stackVersion, u.headerString;
      imageSize := u.imageSize;
    }

    /** The second half of FromFile: the optional fields, as far as their bits are set. */
    method OptionalFromFile(fd: OpenFile) returns (ok: bool)
      modifies this`securityVersion, this`ieeeAddress, this`minHardware, this`maxHardware, fd
      ensures fd.pos >= old(fd.pos)
      ensures ok <==> OptionalLength(fieldControl) <= |old(fd.Rest())|
      ensures ok ==> fd.pos == old(fd.pos) + OptionalLength(fieldControl) && OptionalAre(old(fd.Rest()), Now())
      ensures ok ==> (HasSecurity(Now()) || securityVersion == old(securityVersion)) &&
                     (HasDevice(Now()) || ieeeAddress == old(ieeeAddress)) &&
                     (HasHardware(Now()) || (minHardware == old(minHardware) && maxHardware == old(maxHardware)))
    {
      hide Num2, BitSet, OptionalAre;
      ghost var tail := fd.Rest();
      if BitSet(fieldControl, 1) {
        var raw := fd.Read(1);
        if |raw| != 1 {
          return false;
        }
        securityVersion := raw[0];
      }
      ghost var behindSecurity := fd.Rest();
      if BitSet(fieldControl, 2) {
        var raw := fd.Read(8);
        if |raw| != 8 {
          return false;
        }
        ieeeAddress := raw;
      }
      ghost var behindDevice := fd.Rest();
      ok := HardwareFromFile(fd);
      if ok {
        OptionalTogether(tail, behindSecurity, behindDevice, Now());
      }
    }

    method HardwareFromFile(fd: OpenFile) returns (ok: bool)
      modifies this`minHardware, this`maxHardware, fd
      ensures fd.pos >= old(fd.pos)
      ensures var rest := old(fd.Rest());
        if HasHardware(Now()) then
          && (ok <==> |rest| >= 4)
          && (ok ==> fd.pos == old(fd.pos) + 4 && minHardware == Num2(rest[..2]) && maxHardware == Num2(rest[2..4]))
        else ok && fd.pos == old(fd.pos) && minHardware == old(minHardware) && maxHardware == old(maxHardware)
    {
      hide Num2, BitSet;
      ghost var rest := fd.Rest();
      if BitSet(fieldControl, 4) {
        var raw := fd.Read(2);
        if |raw| != 2 {
          return false;
        }
        minHardware := Num2(raw);
        raw := fd.Read(2);
        if |raw| != 2 {
          return false;
        }
        assert raw == rest[2..4];
        maxHardware := Num2(raw);
      }
      ok := true;
    }

    /** None when a value does not fit its field. */
    method Serialize() returns (bytes: Option<seq<Byte>>)
      ensures bytes == if Packable(Now()) then Some(HeaderBytes(Now())) else None
    {
      hide BitSet, Le2, Le4, String32;
      if !Packable(Now()) {
        return None;
      }
      var data := Le4(fileIdentifier) + Le2(headerVersion) + Le2(headerLength) + Le2(fieldControl) + Le2(manufacturer) +
        Le2(imageType) + Le4(fileVersion) + Le2(stackVersion) + String32(headerString) + Le4(imageSize);
      ghost var fixedPart := data;
      if BitSet(fieldControl, 1) {
        data := data + [securityVersion];
      }
      if BitSet(fieldControl, 2) {
        data := data + ieeeAddress;
      }
      if BitSet(fieldControl, 4) {
        data := data + Le2(minHardware);
        data := data + Le2(maxHardware);
      }
      assert data == fixedPart + OptionalPart(Now());
      bytes := Some(data);
    }
  }

  predicate Tracks(f: Fields, security: nat, device: nat, hardware: nat) {
    && f.fieldControl ==
       (if security > 0 then 1 else 0) + (if device > 0 then 2 else 0) + (if hardware > 0 then 4 else 0)
    && f.headerLength == MIN_LEN + security + 8 * device + 4 * hardware
  }

  /** The length field is the serialised length exactly when no optional setter was called twice. */
  lemma HeaderLengthIsRight(f: Fields, security: nat, device: nat, hardware: nat)
    requires Tracks(f, security, device, hardware) && Packable(f)
    ensures f.headerLength == |HeaderBytes(f)| <==> security <= 1 && device <= 1 && hardware <= 1
  {
    hide BitSet, HeaderBytes, Packable;
    BitsOfControl(security > 0, device > 0, hardware > 0);
  }

  /** The three bits of the field-control value are told apart. */
  lemma BitsOfControl(security: bool, device: bool, hardware: bool)
    ensures var control := (if security then 1 else 0) + (if device then 2 else 0) + (if hardware then 4 else 0);
      BitSet(control, 1) == security && BitSet(control, 2) == device && BitSet(control, 4) == hardware
  {
    if hardware {
      assert 4 / 2 % 2 == 0 && 4 / 4 % 2 == 1 && 6 / 2 % 2 == 1 && 6 / 4 % 2 == 1;
    } else {
      assert 2 / 2 % 2 == 1 && 2 / 4 % 2 == 0 && 1 / 2 % 2 == 0;
    }
  }

  // ---------- sub-elements ----------

  /** A sub-element as constructed: the length field is cut to 32 bits. */
  datatype Subelement = Subelement(tag: nat, length: nat, data: seq<Byte>)

  function MakeSubelement(tag: nat, data: seq<Byte>): Subelement {
    Subelement(tag % 0x1_0000, |data| % 0x1_0000_0000, data)
  }

  function SubelementBytes(e: Subelement): seq<Byte> {
    Le2(e.tag) + Le4(e.length) + (if e.length != 0 then e.data else [])
  }

  function AllBytes(es: seq<Subelement>): seq<Byte> {
    if es == [] then [] else AllBytes(es[..|es| - 1]) + SubelementBytes(es[|es| - 1])
  }

  /** What the size computation counts for the sub-elements. */
  function CountedSize(es: seq<Subelement>): nat {
    if es == [] then 0 else CountedSize(es[..|es| - 1]) + es[|es| - 1].length + SUBELEMENT_HEADER_LEN
  }

  predicate Made(es: seq<Subelement>) {
    forall k :: 0 <= k < |es| ==> es[k].tag < 0x1_0000 && es[k].length == |es[k].data| % 0x1_0000_0000
  }

  /** The length field tells how much data follows. */
  predicate LengthTells(e: Subelement) { e.length == |e.data| || e.length == 0 }

  lemma {:induction false} SizeIsRight(es: seq<Subelement>)
    requires Made(es)
    ensures CountedSize(es) <= |AllBytes(es)|
    ensures CountedSize(es) == |AllBytes(es)| <==> forall k :: 0 <= k < |es| ==> LengthTells(es[k])
  {
    hide SubelementBytes, LengthTells;
    if es != [] {
      var init, last := es[..|es| - 1], es[|es| - 1];
      SizeIsRight(init);
      assert es == init + [last];
      OneSizeIsRight(last);
      OneMoreTells(init, last);
    }
  }

  lemma OneSizeIsRight(e: Subelement)
    requires e.length == |e.data| % 0x1_0000_0000
    ensures e.length + SUBELEMENT_HEADER_LEN <= |SubelementBytes(e)|
    ensures e.length + SUBELEMENT_HEADER_LEN == |SubelementBytes(e)| <==> LengthTells(e)
  {
    assert e.length <= |e.data|;
  }

  lemma OneMoreTells(init: seq<Subelement>, last: Subelement)
    ensures (forall k :: 0 <= k < |init + [last]| ==> LengthTells((init + [last])[k])) <==>
            (forall k :: 0 <= k < |init| ==> LengthTells(init[k])) && LengthTells(last)
  {
    hide LengthTells;
    var es := init + [last];
    assert es[|init|] == last;
    assert forall k :: 0 <= k < |init| ==> es[k] == init[k];
  }

  /** Read one sub-element at pos; None when its header is cut off. Data may be cut off by the end of the file. */
  function ReadSubelement(file: seq<Byte>, pos: nat): (r: Option<(Subelement, nat)>)
    ensures r.Some? ==> pos < r.value.1 <= |file|
  {
    if pos + SUBELEMENT_HEADER_LEN > |file| then None
    else
      var tag, length := Num2(file[pos..pos + 2]), Num4(file[pos + 2..pos + 6]);
      var end := if pos + 6 + length <= |file| then pos + 6 + length else |file|;
      Some((Subelement(tag, length, file[pos + 6..end]), end))
  }

  /** The reader's loop: sub-elements from pos on until the position is the size given in the header. */
  function ReadUntil(file: seq<Byte>, pos: nat, size: nat): Option<seq<Subelement>>
    decreases if pos <= |file| then |file| - pos else 0
  {
    if pos == size then Some([])
    else
      match ReadSubelement(file, pos)
      case None => None
      case Some((e, next)) =>
        match ReadUntil(file, next, size)
        case None => None
        case Some(more) => Some([e] + more)
  }

  function ReadFile(file: seq<Byte>): Option<(Fields, seq<Subelement>)> {
    match ParseHeader(file)
    case None => None
    case Some((fields, pos)) =>
      match ReadUntil(file, pos, fields.imageSize)
      case None => None
      case Some(es) => Some((fields, es))
  }

  method SubelementFromFile(fd: OpenFile) returns (r: Option<Subelement>)
    modifies fd
    ensures fd.pos >= old(fd.pos)
    ensures match ReadSubelement(fd.bytes, old(fd.pos))
      case None => r == None
      case Some((e, next)) => r == Some(e) && fd.pos == next
  {
    hide Num2, Num4;
    ghost var start := fd.pos;
    var raw := fd.Read(SUBELEMENT_HEADER_LEN);
    if |raw| != SUBELEMENT_HEADER_LEN {
      return None;
    }
    assert raw[0..2] == fd.bytes[start..start + 2] && raw[2..6] == fd.bytes[start + 2..start + 6];
    var tag, length := Num2(raw[0..2]), Num4(raw[2..6]);
    var data := fd.Read(length);
    assert data == fd.bytes[start + SUBELEMENT_HEADER_LEN..fd.pos];
    r := Some(Subelement(tag, length, data));
  }

  // ---------- writing, then reading ----------

  /** What a sub-element reads back as: without its data when the length field is 0. */
  function Stored(e: Subelement): Subelement { e.(data := if e.length == 0 then [] else e.data) }

  function AllStored(es: seq<Subelement>): (r: seq<Subelement>)
    ensures |r| == |es|
  {
    seq(|es|, k requires 0 <= k < |es| => Stored(es[k]))
  }

  predicate Readable(es: seq<Subelement>) {
    Made(es) && forall k :: 0 <= k < |es| ==> LengthTells(es[k])
  }

  lemma AllBytesStepsBack(es: seq<Subelement>)
    requires es != []
    ensures AllBytes(es) == AllBytes(es[..|es| - 1]) + SubelementBytes(es[|es| - 1])
  {
    hide SubelementBytes;
  }

  lemma AllBytesOfOne(e: Subelement)
    ensures AllBytes([e]) == SubelementBytes(e) && AllBytes([]) == []
  {
    hide SubelementBytes;
    assert [e][..0] == [];
  }

  lemma Regroup<T>(a: seq<T>, b: seq<T>, c: seq<T>)
    ensures (a + b) + c == a + (b + c) && a + [] == a
  {}

  lemma {:induction false} AllBytesFromTheFront(es: seq<Subelement>)
    requires es != []
    ensures AllBytes(es) == SubelementBytes(es[0]) + AllBytes(es[1..])
  {
    hide SubelementBytes, AllBytes;
    var last := es[|es| - 1];
    if |es| > 1 {
      var init, rest := es[..|es| - 1], es[1..];
      AllBytesFromTheFront(init);
      AllBytesStepsBack(es);
      AllBytesStepsBack(rest);
      assert rest[..|rest| - 1] == init[1..] && rest[|rest| - 1] == last;
      Regroup(SubelementBytes(es[0]), AllBytes(init[1..]), SubelementBytes(last));
    } else {
      assert es == [es[0]] && es[1..] == [];
      AllBytesOfOne(es[0]);
      Regroup(SubelementBytes(es[0]), [], []);
    }
  }

  lemma ReadOneBack(front: seq<Byte>, e: Subelement, rest: seq<Byte>)
    requires e.tag < 0x1_0000 && e.length < 0x1_0000_0000 && LengthTells(e)
    ensures var file := front + SubelementBytes(e) + rest;
      ReadSubelement(file, |front|) == Some((Stored(e), |front| + |SubelementBytes(e)|))
  {
    hide Le2, Le4, Num2, Num4;
    var data := if e.length != 0 then e.data else [];
    var head := Le2(e.tag) + Le4(e.length);
    var file := front + (head + data) + rest;
    var n := |front|;
    assert file == front + SubelementBytes(e) + rest;
    assert file[n..n + 2] == Le2(e.tag) && file[n + 2..n + 6] == Le4(e.length);
    assert |data| == e.length && file[n + 6..n + 6 + |data|] == data;
    LeRoundTrip(e.tag);
    LeRoundTrip(e.length);
  }

  /** The reader's loop over written sub-elements stops at the last byte and returns them all. */
  lemma {:induction false} ReadAllBack(front: seq<Byte>, es: seq<Subelement>)
    requires Readable(es)
    ensures var file := front + AllBytes(es);
      ReadUntil(file, |front|, |file|) == Some(AllStored(es))
    decreases |es|
  {
    hide ReadSubelement, SubelementBytes, LengthTells, ReadUntil, AllStored, Stored, AllBytes;
    var file := front + AllBytes(es);
    if es == [] {
      ReadNothing(file);
    } else {
      var e, rest := es[0], es[1..];
      var front' := front + SubelementBytes(e);
      AllBytesFromTheFront(es);
      assert file == front' + AllBytes(rest);
      ReadOneBack(front, e, AllBytes(rest));
      ReadAllBack(front', rest);
      SubelementLength(e);
      ReadUntilStep(file, |front|, |file|);
      StoredFromTheFront(es);
    }
  }

  lemma ReadNothing(file: seq<Byte>)
    ensures ReadUntil(file, |file|, |file|) == Some(AllStored([])) && AllBytes([]) == []
  {}

  lemma ReadUntilStep(file: seq<Byte>, pos: nat, size: nat)
    requires pos != size && ReadSubelement(file, pos).Some?
    ensures var (e, next) := ReadSubelement(file, pos).value;
      ReadUntil(file, next, size).Some? ==>
      ReadUntil(file, pos, size) == Some([e] + ReadUntil(file, next, size).value)
  {
    hide ReadSubelement;
  }

  lemma StoredFromTheFront(es: seq<Subelement>)
    requires es != []
    ensures AllStored(es) == [Stored(es[0])] + AllStored(es[1..])
  {
    hide Stored;
  }

  lemma SubelementLength(e: Subelement)
    ensures |SubelementBytes(e)| == SUBELEMENT_HEADER_LEN + if e.length != 0 then |e.data| else 0
  {}

  /** What was read so far in front of the rest, if the rest could be read. */
  function Prepend(es: seq<Subelement>, rest: Option<seq<Subelement>>): Option<seq<Subelement>> {
    if rest.Some? then Some(es + rest.value) else None
  }

  lemma PrependStep(es: seq<Subelement>, file: seq<Byte>, pos: nat, size: nat)
    requires pos != size
    ensures var r := ReadSubelement(file, pos);
      Prepend(es, ReadUntil(file, pos, size)) ==
      if r == None then None else Prepend(es + [r.value.0], ReadUntil(file, r.value.1, size))
  {
    hide ReadSubelement;
    var r := ReadSubelement(file, pos);
    if r.Some? {
      var rest := ReadUntil(file, r.value.1, size);
      if rest.Some? {
        assert es + ([r.value.0] + rest.value) == (es + [r.value.0]) + rest.value;
      }
    }
  }

  lemma PrependEnds(es: seq<Subelement>, rest: Option<seq<Subelement>>)
    ensures Prepend(es, Some([])) == Some(es) && Prepend([], rest) == rest
  {
    assert es + [] == es;
    assert rest.Some? ==> [] + rest.value == rest.value;
  }

  /** The reader: header first, then sub-elements until the position is the size the header gives. */
  method ReadOtaFile(file: seq<Byte>) returns (r: Option<(Fields, seq<Subelement>)>)
    ensures r == ReadFile(file)
  {
    hide ReadFile;
    var header := new Header([], 0x09090909, 0);
    header.SetHardwareVersion(0x0000, 0x0101);
    header.SetTotalOtaFileSize(0x00037237);
    var fd := new OpenFile(file);
    r := ReadOpenFile(header, fd);
  }

  method ReadOpenFile(header: Header, fd: OpenFile) returns (r: Option<(Fields, seq<Subelement>)>)
    requires fd.pos == 0
    modifies header, fd
    ensures r == ReadFile(fd.bytes)
  {
    hide ReadSubelement, ParseHeader, ReadUntil, Normal;
    assert fd.Rest() == fd.bytes;
    var ok := header.FromFile(fd);
    if !ok {
      return None;
    }
    var fields := Normal(header.Now());
    NormalSize(header.Now());
    var es := ReadSubelements(fd, header.imageSize);
    r := if es.Some? then Some((fields, es.value)) else None;
  }

  lemma NormalSize(f: Fields)
    ensures Normal(f).imageSize == f.imageSize
  {}

  /** The reader's loop. */
  method ReadSubelements(fd: OpenFile, size: nat) returns (r: Option<seq<Subelement>>)
    modifies fd
    ensures r == ReadUntil(fd.bytes, old(fd.pos), size)
    ensures r.Some? ==> fd.pos == size
  {
    hide ReadSubelement, Prepend;
    ghost var all := ReadUntil(fd.bytes, fd.pos, size);
    var es: seq<Subelement> := [];
    PrependEnds(es, all);
    while fd.pos != size
      invariant Prepend(es, ReadUntil(fd.bytes, fd.pos, size)) == all
      decreases if fd.pos <= |fd.bytes| then |fd.bytes| - fd.pos else 0
    {
      PrependStep(es, fd.bytes, fd.pos, size);
      var e := SubelementFromFile(fd);
      if e == None {
        return None;
      }
      es := es + [e.value];
    }
    PrependEnds(es, all);
    r := Some(es);
  }
}
