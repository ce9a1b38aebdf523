/** Decoding of the `FWVersion` record that an ArduPilot firmware image embeds:
    the record is located by its 8-byte magic header (big-endian first, then
    little-endian), its fixed fields are read through a moving cursor, and its
    string fields are pointers to NUL-terminated byte strings elsewhere in the image. */
module FirmwareDecoder {
  import opened Wrappers
  import opened ByteCodec
  import opened FirmwareTypes

  /** The record's magic number: "apfwver" followed by a check byte. */
  const Magic: nat := 0x61706677766572FB

  /** `struct.pack(order + "Q", FWVersion.header)`: the 8 bytes of the magic in the given order. */
  function MagicBytes(order: ByteOrder): (s: seq<Byte>)
    ensures |s| == 8
    ensures Decode(s, order) == Magic
  {
    DecodeEncode(Magic, 8, order);
    Encode(Magic, 8, order)
  }

  /** The struct formats the decoder reads, with their standard sizes. */
  datatype Format = B | H | I | Q {
    function Size(): nat {
      match this
      case B => 1
      case H => 2
      case I => 4
      case Q => 8
    }
  }

  /** A string pointer is read as `Q` when the record says pointers are 8 bytes wide, else as `I`. */
  function PointerFormat(pointerSize: int): (f: Format)
    ensures f.Size() == (if pointerSize == 8 then 8 else 4)
  {
    if pointerSize == 8 then Q else I
  }

  /** The exceptions that abort decoding. */
  datatype DecodeError =
    | NotFound                          // RuntimeError("Failed to find FWVersion.")
    | HeaderMismatch                    // the assertion on the magic at the cursor
    | ShortRead                         // struct.error: fewer bytes left than the format needs
    | UnknownVehicle(code: nat)         // ValueError from VehicleType(code)
    | UnknownBoard(code: nat)           // ValueError from BoardType(code)
    | UnknownSubtype(code: nat)         // ValueError from BoardSubType(code)
    | UnterminatedString(address: nat)  // no NUL byte between the address and the end of the image

  function OrFail<T>(o: Option<T>, e: DecodeError): (r: Result<T, DecodeError>)
    ensures r.Success? <==> o.Some?
  {
    match o
    case Some(v) => Success(v)
    case None => Failure(e)
  }

  datatype FWVersion = FWVersion(
    header: nat,
    headerVersion: nat,
    pointerSize: nat,
    vehicleType: VehicleType,
    boardType: BoardType,
    boardSubtype: BoardSubType,
    major: nat,
    minor: nat,
    patch: nat,
    firmwareType: Release,
    osSoftwareVersion: nat,
    firmwareString: seq<Byte>,
    firmwareHashString: seq<Byte>,
    firmwareHash: nat,
    middlewareName: seq<Byte>,
    middlewareHashString: seq<Byte>,
    osName: seq<Byte>,
    osHashString: seq<Byte>)

  /** The dataclass defaults. */
  const DefaultFWVersion: FWVersion := FWVersion(
    Magic, 0, 0, VehicleType.NONE, EMPTY, BoardSubType.NONE, 0, 0, 0, Member(EnumEnd), 0,
    [], [], 0, [], [], [], [])

  // ---------------------------------------------------------------------------
  // The byte stream

  /** `BytesIO.read(n)` at cursor `pos`: at most `n` bytes, none once the cursor is
      at or past the end. The cursor then moves by the number of bytes returned. */
  function Take(data: seq<Byte>, pos: nat, n: nat): (chunk: seq<Byte>)
    ensures |chunk| == if pos >= |data| then 0 else if pos + n <= |data| then n else |data| - pos
    ensures pos + n <= |data| ==> chunk == data[pos..pos + n]
    ensures 0 < n && |chunk| == n ==> pos + n <= |data|
    ensures forall k :: 0 <= k < |chunk| ==> pos + k < |data| && chunk[k] == data[pos + k]
  {
    if pos >= |data| then []
    else if pos + n <= |data| then data[pos..pos + n]
    else data[pos..]
  }

  /** `struct.unpack(order + fmt, bytesio.read(size))[0]` with the cursor at `pos`. */
  function Field(data: seq<Byte>, pos: nat, fmt: Format, order: ByteOrder): (r: Result<nat, DecodeError>)
    ensures r.Success? <==> pos + fmt.Size() <= |data|
    ensures r.Failure? ==> r.error == ShortRead
    ensures r.Success? ==> r.value < Pow256(fmt.Size())
  {
    if pos + fmt.Size() <= |data| then Success(Decode(data[pos..pos + fmt.Size()], order))
    else Failure(ShortRead)
  }

  predicate NoNul(s: seq<Byte>) {
    forall k :: 0 <= k < |s| ==> s[k] != 0
  }

  /** The bytes from `address` up to, not including, the first NUL byte; None when
      the image ends first. */
  function CString(data: seq<Byte>, address: nat): (r: Option<seq<Byte>>)
    decreases |data| - address
  {
    if address >= |data| then None
    else if data[address] == 0 then Some([])
    else
      match CString(data, address + 1)
      case None => None
      case Some(s) => Some([data[address]] + s)
  }

  /** CString stops at the first NUL: what it returns is stored at `address`, holds no
      NUL and is followed by one; it returns None exactly when no NUL follows `address`. */
  lemma {:induction false} CStringIsTerminated(data: seq<Byte>, address: nat)
    decreases |data| - address
    ensures var r := CString(data, address);
            r.Some? ==> address + |r.value| < |data| && data[address..address + |r.value|] == r.value
                        && data[address + |r.value|] == 0 && NoNul(r.value)
    ensures CString(data, address).None? <==> forall k :: address <= k < |data| ==> data[k] != 0
  {
    if address < |data| && data[address] != 0 {
      CStringIsTerminated(data, address + 1);
      var r := CString(data, address + 1);
      if r.Some? {
        var s := [data[address]] + r.value;
        assert data[address..address + |s|] == [data[address]] + data[address + 1..address + 1 + |r.value|];
        assert forall k :: 0 < k < |s| ==> s[k] == r.value[k - 1];
      }
    }
  }

  /** Non-NUL bytes `s` stored at `address` and followed by a NUL are what CString reads. */
  lemma {:induction false} CStringOfTerminated(data: seq<Byte>, address: nat, s: seq<Byte>)
    requires address + |s| < |data| && data[address + |s|] == 0
    requires forall k :: 0 <= k < |s| ==> data[address + k] == s[k]
    requires NoNul(s)
    ensures CString(data, address) == Some(s)
    decreases |s|
  {
    if s != [] {
      assert data[address] == s[0];
      CStringOfTerminated(data, address + 1, s[1..]);
      assert s == [s[0]] + s[1..];
    }
  }

  /** `unpack_string_from_pointer` with the cursor at `pos`: a null pointer is the
      empty string; any other pointer is translated by the image's address map and
      the NUL-terminated string at the translated address is read. */
  function StringAt(data: seq<Byte>, pos: nat, pointerSize: int, order: ByteOrder,
                    offsets: nat -> nat): (r: Result<seq<Byte>, DecodeError>)
    ensures r.Success? ==> pos + PointerFormat(pointerSize).Size() <= |data|
  {
    var address :- Field(data, pos, PointerFormat(pointerSize), order);
    if address == 0 then Success([])
    else
      var target := offsets(address);
      OrFail(CString(data, target), UnterminatedString(target))
  }

  lemma StringAtPointer(data: seq<Byte>, pos: nat, pointerSize: int, order: ByteOrder,
                        offsets: nat -> nat, address: nat)
    requires Field(data, pos, PointerFormat(pointerSize), order) == Success(address)
    ensures StringAt(data, pos, pointerSize, order, offsets)
            == if address == 0 then Success([])
               else OrFail(CString(data, offsets(address)), UnterminatedString(offsets(address)))
  {
  }

  /** `locate_header`: the first index where the magic, packed in `order`, occurs,
      or -1 when it occurs nowhere. */
  function LocateHeader(data: seq<Byte>, order: ByteOrder): (r: int)
    ensures r == -1 || OccursAt(data, MagicBytes(order), r)
  {
    Find(data, MagicBytes(order))
  }

  /** The header found is the first one, and -1 means the magic occurs nowhere. */
  lemma LocateHeaderIsFirst(data: seq<Byte>, order: ByteOrder)
    ensures LocateHeader(data, order) == -1 <==> forall p :: !OccursAt(data, MagicBytes(order), p)
    ensures LocateHeader(data, order) != -1 ==>
              forall p :: 0 <= p < LocateHeader(data, order) ==> !OccursAt(data, MagicBytes(order), p)
  {
    FindIsFirst(data, MagicBytes(order));
  }

  // ---------------------------------------------------------------------------
  // The record layout

  /** The hash field exists from major header version 2 on (`header_version >> 8 >= 2`). */
  predicate HasHash(headerVersion: nat) {
    headerVersion / 256 >= 2
  }

  /** Length of the pointer part: six pointers and, when present, the hash. */
  function PointerPartLength(pointerSize: int, hashed: bool): nat {
    6 * PointerFormat(pointerSize).Size() + (if hashed then 4 else 0)
  }

  /** Bytes of the record proper: the fixed 24-byte prefix, six string pointers and
      the optional 4-byte hash. */
  function RecordLength(pointerSize: int, headerVersion: nat): (n: nat)
    ensures n == 24 + 6 * (if pointerSize == 8 then 8 else 4) + (if HasHash(headerVersion) then 4 else 0)
  {
    24 + PointerPartLength(pointerSize, HasHash(headerVersion))
  }

  /** The identification fields of the record, the 8 bytes after the magic. */
  datatype Identity = Identity(
    headerVersion: nat,
    pointerSize: nat,
    vehicleType: VehicleType,
    boardType: BoardType,
    boardSubtype: BoardSubType)

  /** The version fields of the record, the 8 bytes after the identification. */
  datatype Version = Version(
    major: nat,
    minor: nat,
    patch: nat,
    firmwareType: Release,
    osSoftwareVersion: nat)

  /** The fixed 24-byte prefix of the record: the magic, the identification, the version. */
  datatype Prefix = Prefix(identity: Identity, version: Version)

  /** The identification decoded at offset `at`: the fields H B B B B H, the third
      of which is reserved and ignored; the codes become enum members. */
  function ParseIdentity(data: seq<Byte>, at: nat, order: ByteOrder): (r: Result<Identity, DecodeError>)
    ensures r.Success? ==> at + 8 <= |data|
  {
    var headerVersion :- Field(data, at, H, order);
    var pointerSize :- Field(data, at + 2, B, order);
    var reserved :- Field(data, at + 3, B, order);
    var vehicleCode :- Field(data, at + 4, B, order);
    var vehicle :- OrFail(VehicleTypeFromCode(vehicleCode), UnknownVehicle(vehicleCode));
    var boardCode :- Field(data, at + 5, B, order);
    var board :- OrFail(BoardTypeFromCode(boardCode), UnknownBoard(boardCode));
    var subtypeCode :- Field(data, at + 6, H, order);
    var subtype :- OrFail(BoardSubTypeFromCode(subtypeCode), UnknownSubtype(subtypeCode));
    Success(Identity(headerVersion, pointerSize, vehicle, board, subtype))
  }

  /** The version decoded at offset `at`: the fields B B B B I, the fourth being the
      release type code. */
  function ParseVersion(data: seq<Byte>, at: nat, order: ByteOrder): (r: Result<Version, DecodeError>)
    ensures r.Success? <==> at + 8 <= |data|
    ensures r.Failure? ==> r.error == ShortRead
  {
    var major :- Field(data, at, B, order);
    var minor :- Field(data, at + 1, B, order);
    var patch :- Field(data, at + 2, B, order);
    var firmwareTypeCode :- Field(data, at + 3, B, order);
    var osSoftwareVersion :- Field(data, at + 4, I, order);
    Success(Version(major, minor, patch, GetRelease(firmwareTypeCode), osSoftwareVersion))
  }

  /** The prefix decoded at offset `start`: the magic, then the identification and
      the version. */
  function ParsePrefix(data: seq<Byte>, start: nat, order: ByteOrder): (r: Result<Prefix, DecodeError>)
    ensures !OccursAt(data, MagicBytes(order), start) ==> r == Failure(HeaderMismatch)
    ensures r.Success? ==> OccursAt(data, MagicBytes(order), start) && start + 24 <= |data|
  {
    if !OccursAt(data, MagicBytes(order), start) then Failure(HeaderMismatch)
    else
      var identity :- ParseIdentity(data, start + 8, order);
      var version :- ParseVersion(data, start + 16, order);
      Success(Prefix(identity, version))
  }

  /** The string fields of the record, and its hash. */
  datatype Strings = Strings(
    firmwareString: seq<Byte>,
    firmwareHashString: seq<Byte>,
    firmwareHash: nat,
    middlewareName: seq<Byte>,
    middlewareHashString: seq<Byte>,
    osName: seq<Byte>,
    osHashString: seq<Byte>)

  /** The pointer part decoded at offset `at`: two string pointers, the hash when
      `hashed`, then four string pointers. Without a hash field `baseHash` is kept. */
  function ParseStrings(data: seq<Byte>, at: nat, pointerSize: int, hashed: bool, order: ByteOrder,
                        offsets: nat -> nat, baseHash: nat): (r: Result<Strings, DecodeError>)
    ensures r.Success? ==> at + PointerPartLength(pointerSize, hashed) <= |data|
    ensures r.Success? && !hashed ==> r.value.firmwareHash == baseHash
  {
    var w := PointerFormat(pointerSize).Size();
    var firmwareString :- StringAt(data, at, pointerSize, order, offsets);
    var firmwareHashString :- StringAt(data, at + w, pointerSize, order, offsets);
    var firmwareHash :- if hashed then Field(data, at + 2 * w, I, order) else Success(baseHash);
    var tail := at + 2 * w + (if hashed then 4 else 0);
    var middlewareName :- StringAt(data, tail, pointerSize, order, offsets);
    var middlewareHashString :- StringAt(data, tail + w, pointerSize, order, offsets);
    var osName :- StringAt(data, tail + 2 * w, pointerSize, order, offsets);
    var osHashString :- StringAt(data, tail + 3 * w, pointerSize, order, offsets);
    Success(Strings(firmwareString, firmwareHashString, firmwareHash, middlewareName,
                    middlewareHashString, osName, osHashString))
  }

  function Assemble(base: FWVersion, p: Prefix, s: Strings): FWVersion {
    base.(
      headerVersion := p.identity.headerVersion,
      pointerSize := p.identity.pointerSize,
      vehicleType := p.identity.vehicleType,
      boardType := p.identity.boardType,
      boardSubtype := p.identity.boardSubtype,
      major := p.version.major,
      minor := p.version.minor,
      patch := p.version.patch,
      firmwareType := p.version.firmwareType,
      osSoftwareVersion := p.version.osSoftwareVersion,
      firmwareString := s.firmwareString,
      firmwareHashString := s.firmwareHashString,
      firmwareHash := s.firmwareHash,
      middlewareName := s.middlewareName,
      middlewareHashString := s.middlewareHashString,
      osName := s.osName,
      osHashString := s.osHashString)
  }

  /** The record decoded at offset `start`. `base` supplies the fields that decoding
      leaves alone: the magic, and the hash of a record older than major version 2. */
  function ParseFWVersion(data: seq<Byte>, start: nat, order: ByteOrder, offsets: nat -> nat,
                          base: FWVersion): (r: Result<FWVersion, DecodeError>)
    ensures !OccursAt(data, MagicBytes(order), start) ==> r == Failure(HeaderMismatch)
    ensures r.Success? ==> start + RecordLength(r.value.pointerSize, r.value.headerVersion) <= |data|
  {
    var p :- ParsePrefix(data, start, order);
    var s :- ParseStrings(data, start + 24, p.identity.pointerSize, HasHash(p.identity.headerVersion), order,
                          offsets, base.firmwareHash);
    Success(Assemble(base, p, s))
  }

  /** Where each identification field comes from: its offset, in the record's byte order. */
  lemma IdentityLayout(data: seq<Byte>, at: nat, order: ByteOrder)
    requires ParseIdentity(data, at, order).Success?
    ensures var id := ParseIdentity(data, at, order).value;
            && id.headerVersion == Decode(data[at..at + 2], order)
            && id.pointerSize == data[at + 2]
            && id.vehicleType.Code() == data[at + 4]
            && id.boardType.Code() == data[at + 5]
            && id.boardSubtype.Code() == Decode(data[at + 6..at + 8], order)
  {
    DecodeOneByte(data[at + 2..at + 3], order);
    DecodeOneByte(data[at + 4..at + 5], order);
    DecodeOneByte(data[at + 5..at + 6], order);
  }

  /** Where each version field comes from; the release type is always a defined one. */
  lemma VersionLayout(data: seq<Byte>, at: nat, order: ByteOrder)
    requires at + 8 <= |data|
    ensures var v := ParseVersion(data, at, order).value;
            && v.major == data[at]
            && v.minor == data[at + 1]
            && v.patch == data[at + 2]
            && v.firmwareType == GetRelease(data[at + 3])
            && v.firmwareType != Member(EnumEnd) && v.firmwareType != Unknown
            && v.osSoftwareVersion == Decode(data[at + 4..at + 8], order)
  {
    DecodeOneByte(data[at..at + 1], order);
    DecodeOneByte(data[at + 1..at + 2], order);
    DecodeOneByte(data[at + 2..at + 3], order);
    DecodeOneByte(data[at + 3..at + 4], order);
    ReleaseOfByte(data[at + 3]);
  }

  /** An unknown vehicle, board or subtype code in a well-formed prefix is an error
      naming that code; the vehicle is checked first, then the board, then the subtype. */
  lemma PrefixCodeErrors(data: seq<Byte>, start: nat, order: ByteOrder)
    requires OccursAt(data, MagicBytes(order), start) && start + 24 <= |data|
    ensures VehicleTypeFromCode(data[start + 12]).None? ==>
              ParsePrefix(data, start, order) == Failure(UnknownVehicle(data[start + 12]))
    ensures VehicleTypeFromCode(data[start + 12]).Some? && BoardTypeFromCode(data[start + 13]).None? ==>
              ParsePrefix(data, start, order) == Failure(UnknownBoard(data[start + 13]))
    ensures var subtypeCode := Decode(data[start + 14..start + 16], order);
            VehicleTypeFromCode(data[start + 12]).Some? && BoardTypeFromCode(data[start + 13]).Some?
            && BoardSubTypeFromCode(subtypeCode).None? ==>
              ParsePrefix(data, start, order) == Failure(UnknownSubtype(subtypeCode))
  {
    DecodeOneByte(data[start + 12..start + 13], order);
    DecodeOneByte(data[start + 13..start + 14], order);
  }

  /** The first of `orders` whose magic occurs in `data`, with the index of its first occurrence. */
  function FirstMatch(data: seq<Byte>, orders: seq<ByteOrder>): (r: Option<(ByteOrder, nat)>)
    ensures r.Some? ==> r.value.0 in orders && OccursAt(data, MagicBytes(r.value.0), r.value.1)
    ensures r.None? <==> forall o :: o in orders ==> LocateHeader(data, o) == -1
  {
    if orders == [] then None
    else
      var position := LocateHeader(data, orders[0]);
      if position != -1 then Some((orders[0], position)) else FirstMatch(data, orders[1..])
  }

  /** Endianness detection: the big-endian magic is tried first, then the little-endian one. */
  function DetectByteOrder(data: seq<Byte>): Option<(ByteOrder, nat)> {
    FirstMatch(data, [Big, Little])
  }

  /** The detected order is big-endian exactly when the big-endian magic occurs, and the
      record is placed on its first occurrence; otherwise the little-endian magic decides. */
  lemma DetectByteOrderCases(data: seq<Byte>)
    ensures LocateHeader(data, Big) != -1 ==>
              DetectByteOrder(data) == Some((Big, LocateHeader(data, Big) as nat))
    ensures LocateHeader(data, Big) == -1 && LocateHeader(data, Little) != -1 ==>
              DetectByteOrder(data) == Some((Little, LocateHeader(data, Little) as nat))
    ensures LocateHeader(data, Big) == -1 && LocateHeader(data, Little) == -1 ==>
              DetectByteOrder(data) == None
  {
    var little := LocateHeader(data, Little);
    assert [Little][1..] == [];
    assert FirstMatch(data, [Little]) == if little != -1 then Some((Little, little as nat)) else None;
    assert [Big, Little][1..] == [Little];
  }

  /** An empty image holds no record in either order. */
  lemma EmptyImageHasNoRecord()
    ensures DetectByteOrder([]) == None
  {
    assert !OccursAt([], MagicBytes(Big), LocateHeader([], Big));
    assert !OccursAt([], MagicBytes(Little), LocateHeader([], Little));
    DetectByteOrderCases([]);
  }

  // ---------------------------------------------------------------------------
  // The decoder object: a byte stream with a cursor, a byte order, the pointer
  // width and the record being filled in

  class Decoder {
    var data: seq<Byte>             // the bytes behind `bytesio`
    var pos: nat                    // the `bytesio` cursor
    var byteorder: ByteOrder
    var pointerSize: int
    var fwversion: FWVersion
    var addressOffsets: nat -> nat  // the ELF file's address translation for PIE images

    constructor ()
      ensures data == [] && pos == 0 && pointerSize == 0 && fwversion == DefaultFWVersion
    {
      data := [];
      pos := 0;
      byteorder := Little;
      pointerSize := 0;
      fwversion := DefaultFWVersion;
      addressOffsets := address => address;
    }

    /** `bytesio.read(n)`. */
    method Read(n: nat) returns (chunk: seq<Byte>)
      modifies this`pos
      ensures chunk == Take(data, old(pos), n)
      ensures pos == old(pos) + |chunk|
    {
      chunk := Take(data, pos, n);
      pos := pos + |chunk|;
    }

    /** `unpack`: one field in the decoder's byte order at the cursor. */
    method Unpack(fmt: Format) returns (r: Result<nat, DecodeError>)
      modifies this`pos
      ensures r == Field(data, old(pos), fmt, byteorder)
      ensures r.Success? ==> pos == old(pos) + fmt.Size()
    {
      var chunk := Read(fmt.Size());
      if |chunk| < fmt.Size() {
        return Failure(ShortRead);
      }
      return Success(Decode(chunk, byteorder));
    }

    /** The `while True` loop of `unpack_string_from_pointer`: appends one byte read
        at the cursor at a time until the byte appended is a NUL, which it drops.
        Where the source would loop for ever (or fail on an empty list) because the
        image ends first, this returns None. */
    method ReadNulTerminated() returns (r: Option<seq<Byte>>)
      modifies this`pos
      ensures r == CString(data, old(pos))
    {
      ghost var address := pos;
      var s: seq<Byte> := [];
      while true
        invariant pos == address + |s|
        invariant s == [] || pos <= |data|
        invariant forall k :: 0 <= k < |s| ==> s[k] == data[address + k]
        invariant NoNul(s)
        decreases |data| - |s|
      {
        var chunk := Read(1);
        if chunk == [] {
          assert forall k :: address <= k < |data| ==> data[k] == s[k - address];
          CStringIsTerminated(data, address);
          return None;
        }
        assert |chunk| == 1 && chunk[0] == data[address + |s|];
        ghost var before := s;
        s := s + chunk;
        if s[|s| - 1] == 0 {
          s := s[..|s| - 1];
          assert s == before && data[address + |s|] == 0;
          break;
        }
      }
      CStringOfTerminated(data, address, s);
      return Some(s);
    }

    /** `unpack_string_from_pointer`: reads a pointer at the cursor; unless it is
        null, seeks to the translated address, reads the string there and seeks
        back behind the pointer. */
    method UnpackStringFromPointer() returns (r: Result<seq<Byte>, DecodeError>)
      modifies this`pos
      ensures r == StringAt(data, old(pos), pointerSize, byteorder, addressOffsets)
      ensures r.Success? ==> pos == old(pos) + PointerFormat(pointerSize).Size()
    {
      ghost var start := pos;
      var address :- Unpack(PointerFormat(pointerSize));
      StringAtPointer(data, start, pointerSize, byteorder, addressOffsets, address);
      if address == 0 {
        return Success([]);
      }
      address := addressOffsets(address);
      var currentAddress := pos;
      pos := address;
      var s := ReadNulTerminated();
      if s.None? {
        return Failure(UnterminatedString(address));
      }
      pos := currentAddress;
      return Success(s.value);
    }

    /** The identification fields of `unpack_fwversion`, converting the codes to enum members. */
    method UnpackIdentity() returns (r: Result<Identity, DecodeError>)
      modifies this`pos
      ensures r == ParseIdentity(data, old(pos), byteorder)
      ensures r.Success? ==> pos == old(pos) + 8
    {
      var headerVersion :- Unpack(H);
      var pointerSize :- Unpack(B);
      var reserved :- Unpack(B);
      var vehicleCode :- Unpack(B);
      var vehicle :- OrFail(VehicleTypeFromCode(vehicleCode), UnknownVehicle(vehicleCode));
      var boardCode :- Unpack(B);
      var board :- OrFail(BoardTypeFromCode(boardCode), UnknownBoard(boardCode));
      var subtypeCode :- Unpack(H);
      var subtype :- OrFail(BoardSubTypeFromCode(subtypeCode), UnknownSubtype(subtypeCode));
      return Success(Identity(headerVersion, pointerSize, vehicle, board, subtype));
    }

    /** The version fields of `unpack_fwversion`, converting the release code with `get_release`. */
    method UnpackVersion() returns (r: Result<Version, DecodeError>)
      modifies this`pos
      ensures r == ParseVersion(data, old(pos), byteorder)
      ensures r.Success? ==> pos == old(pos) + 8
    {
      var major :- Unpack(B);
      var minor :- Unpack(B);
      var patch :- Unpack(B);
      var firmwareTypeCode :- Unpack(B);
      var osSoftwareVersion :- Unpack(I);
      return Success(Version(major, minor, patch, GetRelease(firmwareTypeCode), osSoftwareVersion));
    }

    /** The first half of `unpack_fwversion`: checks the magic at the cursor and
        reads the fixed fields after it. */
    method UnpackPrefix() returns (r: Result<Prefix, DecodeError>)
      modifies this`pos
      ensures r == ParsePrefix(data, old(pos), byteorder)
      ensures r.Success? ==> pos == old(pos) + 24
    {
      var magic := Read(8);
      if magic != MagicBytes(byteorder) {
        return Failure(HeaderMismatch);
      }
      var identity :- UnpackIdentity();
      var version :- UnpackVersion();
      return Success(Prefix(identity, version));
    }

    /** The second half of `unpack_fwversion`: two string pointers, the hash when
        `hashed`, then four string pointers. */
    method UnpackStrings(hashed: bool) returns (r: Result<Strings, DecodeError>)
      modifies this`pos
      ensures r == ParseStrings(data, old(pos), pointerSize, hashed, byteorder, addressOffsets,
                                fwversion.firmwareHash)
      ensures r.Success? ==> pos == old(pos) + PointerPartLength(pointerSize, hashed)
    {
      var firmwareString :- UnpackStringFromPointer();
      var firmwareHashString :- UnpackStringFromPointer();
      var firmwareHash := fwversion.firmwareHash;
      if hashed {
        firmwareHash :- Unpack(I);
      }
      var middlewareName :- UnpackStringFromPointer();
      var middlewareHashString :- UnpackStringFromPointer();
      var osName :- UnpackStringFromPointer();
      var osHashString :- UnpackStringFromPointer();
      return Success(Strings(firmwareString, firmwareHashString, firmwareHash, middlewareName,
                             middlewareHashString, osName, osHashString));
    }

    /** `unpack_fwversion`: decodes the record at the cursor into `fwversion`; on
        success the cursor has moved past the whole record. The pointer width is
        the one the record itself declares. */
    method UnpackFwversion() returns (r: Result<(), DecodeError>)
      modifies this`pos, this`pointerSize, this`fwversion
      ensures r.Failure? ==>
                ParseFWVersion(data, old(pos), byteorder, addressOffsets, old(fwversion)) == Failure(r.error)
      ensures r.Success? ==>
                && ParseFWVersion(data, old(pos), byteorder, addressOffsets, old(fwversion)) == Success(fwversion)
                && pointerSize == fwversion.pointerSize
                && pos == old(pos) + RecordLength(pointerSize, fwversion.headerVersion)
    {
      ghost var start := pos;
      var prefix :- UnpackPrefix();
      var majorVersion := prefix.identity.headerVersion / 256;
      pointerSize := prefix.identity.pointerSize;
      var strings :- UnpackStrings(majorVersion >= 2);
      assert pos == start + RecordLength(pointerSize, prefix.identity.headerVersion);
      fwversion := Assemble(fwversion, prefix, strings);
      return Success(());
    }

    /** The endianness loop of `process`: tries the big-endian magic, then the
        little-endian one, and on the first match sets the byte order and places the
        cursor on the match in a stream over the image. */
    method DetectEndianness(fileData: seq<Byte>) returns (found: bool)
      modifies this`data, this`pos, this`byteorder
      ensures found <==> DetectByteOrder(fileData).Some?
      ensures found ==> data == fileData && DetectByteOrder(fileData) == Some((byteorder, pos))
      ensures !found ==> data == old(data) && pos == old(pos) && byteorder == old(byteorder)
    {
      var orders := [Big, Little];
      found := false;
      for i := 0 to |orders|
        invariant !found ==> DetectByteOrder(fileData) == FirstMatch(fileData, orders[i..])
        invariant !found ==> data == old(data) && pos == old(pos) && byteorder == old(byteorder)
        invariant found ==> data == fileData && DetectByteOrder(fileData) == Some((byteorder, pos))
      {
        assert orders[i..] == [orders[i]] + orders[i + 1..];
        var position := LocateHeader(fileData, orders[i]);
        if position != -1 {
          byteorder := orders[i];
          data := fileData;
          pos := position;
          found := true;
          break;
        }
      }
    }

    /** `process` on the bytes of an image: finds the record in either byte order
        and decodes it there. Empty data, or data holding neither magic, leaves the
        decoder as it was. */
    method Process(fileData: seq<Byte>, offsets: nat -> nat) returns (r: Result<FWVersion, DecodeError>)
      modifies this
      ensures addressOffsets == offsets
      ensures r == match DetectByteOrder(fileData)
                   case None => Failure(NotFound)
                   case Some(found) => ParseFWVersion(fileData, found.1, found.0, offsets, old(fwversion))
      ensures DetectByteOrder(fileData).Some? ==>
                data == fileData && byteorder == DetectByteOrder(fileData).value.0
      ensures DetectByteOrder(fileData).None? ==>
                && data == old(data) && pos == old(pos) && byteorder == old(byteorder)
                && pointerSize == old(pointerSize) && fwversion == old(fwversion)
      ensures r.Success? ==>
                && fwversion == r.value
                && pointerSize == fwversion.pointerSize
                && pos == DetectByteOrder(fileData).value.1 + RecordLength(pointerSize, fwversion.headerVersion)
    {
      addressOffsets := offsets;
      if fileData == [] {
        EmptyImageHasNoRecord();
        return Failure(NotFound);
      }
      var found := DetectEndianness(fileData);
      if !found {
        return Failure(NotFound);
      }
      var unpacked := UnpackFwversion();
      if unpacked.Failure? {
        return Failure(unpacked.error);
      }
      return Success(fwversion);
    }
  }

  // ---------------------------------------------------------------------------
  // The string loop as written: `while True` appends `bytesio.read(1)` and stops
  // on a NUL; past the end of the image `read` returns nothing, so the last byte
  // appended is examined again and again

  datatype ScanState = Scanning(pos: nat, acc: seq<Byte>) | Terminated(s: seq<Byte>) | IndexError

  /** One iteration of the source's loop (`IndexError` is `string[-1]` on an empty list). */
  function StepAsWritten(data: seq<Byte>, st: ScanState): (next: ScanState)
    ensures st.Scanning? && st.pos >= |data| && st.acc != [] && st.acc[|st.acc| - 1] != 0 ==> next == st
  {
    match st
    case Scanning(pos, acc) =>
      var chunk := Take(data, pos, 1);
      var acc' := acc + chunk;
      if acc' == [] then IndexError
      else if acc'[|acc'| - 1] == 0 then Terminated(acc'[..|acc'| - 1])
      else Scanning(pos + |chunk|, acc')
    case _ => st
  }

  function RunAsWritten(data: seq<Byte>, st: ScanState, steps: nat): ScanState
    decreases steps
  {
    if steps == 0 then st else RunAsWritten(data, StepAsWritten(data, st), steps - 1)
  }

  /** As written, a string that the image ends before terminating keeps the loop
      running for ever: after any number of iterations it is still scanning. */
  lemma {:induction false} UnterminatedStringLoopsForever(data: seq<Byte>, address: nat, steps: nat)
    requires address < |data|
    requires forall k :: address <= k < |data| ==> data[k] != 0
    ensures RunAsWritten(data, Scanning(address, []), steps).Scanning?
  {
    ScanInvariant(data, address, Scanning(address, []), steps);
  }

  /** The states the as-written loop goes through on an unterminated string. */
  ghost predicate ScanValid(data: seq<Byte>, address: nat, st: ScanState) {
    && st.Scanning?
    && st.pos == address + |st.acc|
    && st.pos <= |data|
    && st.acc == data[address..st.pos]
  }

  lemma {:induction false} ScanInvariant(data: seq<Byte>, address: nat, st: ScanState, steps: nat)
    requires address < |data|
    requires forall k :: address <= k < |data| ==> data[k] != 0
    requires ScanValid(data, address, st)
    ensures RunAsWritten(data, st, steps).Scanning?
    decreases steps
  {
    if steps > 0 {
      var next := StepAsWritten(data, st);
      var chunk := Take(data, st.pos, 1);
      if st.pos < |data| {
        assert chunk == [data[st.pos]];
        assert data[address..st.pos + 1] == data[address..st.pos] + [data[st.pos]];
        assert next == Scanning(st.pos + 1, st.acc + chunk);
      } else {
        assert st.acc != [] && st.acc[|st.acc| - 1] == data[st.pos - 1];
        assert next == st;
      }
      ScanInvariant(data, address, next, steps - 1);
    }
  }

  /** The image `[0x41]` with a string pointer at address 0 is one such input: after one
      iteration the loop state no longer changes. */
  lemma UnterminatedStringExample()
    ensures StepAsWritten([0x41], Scanning(0, [])) == Scanning(1, [0x41])
    ensures StepAsWritten([0x41], Scanning(1, [0x41])) == Scanning(1, [0x41])
  {
  }

  /** Where the source's loop does stop, it returns what CString returns. */
  lemma {:induction false} AsWrittenAgreesWhenTerminated(data: seq<Byte>, address: nat)
    requires CString(data, address).Some?
    ensures RunAsWritten(data, Scanning(address, []), |CString(data, address).value| + 1)
            == Terminated(CString(data, address).value)
  {
    var s := CString(data, address).value;
    CStringIsTerminated(data, address);
    assert forall k :: address <= k < address + |s| ==> data[k] == s[k - address];
    RunTerminates(data, address, [], |s|);
    assert [] + data[address..address + |s|] == s;
  }

  /** One iteration of the as-written loop on a byte inside the image. */
  lemma StepOnByte(data: seq<Byte>, pos: nat, acc: seq<Byte>)
    requires pos < |data|
    ensures StepAsWritten(data, Scanning(pos, acc))
            == if data[pos] == 0 then Terminated(acc) else Scanning(pos + 1, acc + [data[pos]])
  {
    assert Take(data, pos, 1) == [data[pos]];
    assert (acc + [data[pos]])[..|acc|] == acc;
  }

  /** From `pos`, the as-written loop runs `n` non-NUL bytes and then stops on the NUL
      at `pos + n`, returning what it accumulated. */
  lemma {:induction false} RunTerminates(data: seq<Byte>, pos: nat, acc: seq<Byte>, n: nat)
    requires pos + n < |data| && data[pos + n] == 0
    requires forall k :: pos <= k < pos + n ==> data[k] != 0
    ensures RunAsWritten(data, Scanning(pos, acc), n + 1) == Terminated(acc + data[pos..pos + n])
    decreases n
  {
    StepOnByte(data, pos, acc);
    if n == 0 {
      assert acc + data[pos..pos] == acc;
    } else {
      RunTerminates(data, pos + 1, acc + [data[pos]], n - 1);
      assert acc + [data[pos]] + data[pos + 1..pos + n] == acc + data[pos..pos + n];
    }
  }
}
