# ArduPilot firmware-version decoder and waypoint-navigator rules, in Dafny

This project models two pieces of ArduPilot.

**The firmware-version decoder** (`Tools/scripts/firmware_version_decoder.py`).
An ArduPilot firmware image embeds an `FWVersion` record. The decoder finds the
record by its 8-byte magic `0x61706677766572FB`, trying big-endian first and
then little-endian. It reads the record's fixed fields through a moving
`BytesIO` cursor:

- the header version (`H`);
- the pointer size (`B`) and a reserved byte (`B`);
- the vehicle, board and board-subtype codes (`B B H`), turned into enum members;
- major, minor and patch (`B B B`);
- the release type (`B`), classified by `get_release`;
- the OS software version (`I`).

Then come six pointers to NUL-terminated strings, with a 4-byte hash between the
second and third pointer from header major version 2 on.

The files are:

- `wrappers.dfy`: `Option` and a failure-compatible `Result`. A `Failure` stands
  for the exception the script would raise.
- `byte_codec.dfy` (module `ByteCodec`): `struct` packing and unpacking of
  unsigned fields in either byte order, and `bytes.find`.
- `firmware_types.dfy` (module `FirmwareTypes`):
  - the release-type enum and `get_release`;
  - the vehicle, board and subtype enums, with construction from a code;
  - the day/month/year split of the OS software version done by `__str__`.
- `fw_decoder.dfy` (module `FirmwareDecoder`):
  - the record;
  - a value-level specification of the whole decoding, `ParseFWVersion`;
  - the `Decoder` class, whose methods move the cursor step by step as the
    script does, and whose `ensures` tie each method to the specification;
  - the string loop exactly as written (see Findings).

**The waypoint navigator's inline rules** (`libraries/AC_WPNav/AC_WPNav.h`), in
`wpnav.dfy` (module `WPNav`):

- the class `WPNav`;
- the rangefinder terrain-offset setter and queries;
- the pause flag;
- the terrain-margin floor;
- the speed and acceleration getters with their fallbacks;
- the waypoint-radius arrival rule.

Quantities are `real`. The horizontal distance to the destination is a parameter.

## Model

| member | source | states |
|---|---|---|
| ByteCodec.DecodeLE | Tools/scripts/firmware_version_decoder.py:161-164 | a little-endian n-byte field decodes to a value below 256^n |
| ByteCodec.DecodeBE | Tools/scripts/firmware_version_decoder.py:161-164 | a big-endian n-byte field decodes to a value below 256^n |
| ByteCodec.Decode | Tools/scripts/firmware_version_decoder.py:161-164 | `unpack` with the byte-order prefix of line 162: the big- or little-endian positional value, below 256^n; DecodeEncode, EncodeDecode and DecodeInjective give its round trips |
| ByteCodec.Encode | Tools/scripts/firmware_version_decoder.py:190 | `struct.pack` of an n-byte format yields exactly n bytes |
| ByteCodec.DecodeEncode | Tools/scripts/firmware_version_decoder.py:161-164 | packing a value below 256^n and unpacking it in the same order gives the value back |
| ByteCodec.EncodeDecode | Tools/scripts/firmware_version_decoder.py:161-164 | unpacking bytes and packing the value again reproduces the bytes |
| ByteCodec.DecodeOneByte | Tools/scripts/firmware_version_decoder.py:161-164 | a `B` field is the byte itself, whatever the byte order |
| ByteCodec.DecodeInjective | Tools/scripts/firmware_version_decoder.py:161-164 | distinct byte strings of one width decode to distinct values |
| ByteCodec.FindFrom | Tools/scripts/firmware_version_decoder.py:190 | the search from an index returns -1 or an index at or after it where the pattern occurs |
| ByteCodec.FindFromIsFirst | Tools/scripts/firmware_version_decoder.py:190 | the search skips no occurrence; -1 means none exists at or after the start |
| ByteCodec.Find | Tools/scripts/firmware_version_decoder.py:190 | `bytes.find` returns -1 or an index where the pattern occurs |
| ByteCodec.FindIsFirst | Tools/scripts/firmware_version_decoder.py:190 | `bytes.find` returns -1 exactly when the pattern occurs nowhere, and otherwise the least index where it occurs |
| FirmwareTypes.FirstAtOrBelow | Tools/scripts/firmware_version_decoder.py:31-34 | the loop returns "Unknown" exactly when every candidate is above the version; otherwise it returns the first candidate at or below it |
| FirmwareTypes.Reverse | Tools/scripts/firmware_version_decoder.py:31 | `reversed` gives the same members, last first |
| FirmwareTypes.ReversedDefinitions | Tools/scripts/firmware_version_decoder.py:15-21 | iterating the release enum in reverse visits EnumEnd, Official, RC, Beta, Alpha, Dev, with strictly decreasing values |
| FirmwareTypes.FirstAtOrBelowIsGreatest | Tools/scripts/firmware_version_decoder.py:31-33 | on candidates in decreasing order, the member returned has the largest value not above the version |
| FirmwareTypes.MemberListed | Tools/scripts/firmware_version_decoder.py:15-21 | every release type is one of the enum's definitions |
| FirmwareTypes.ReleaseIsFloor | Tools/scripts/firmware_version_decoder.py:23-34 | `get_release(v)` is the member with the largest value at most v, and it is "Unknown" exactly when v < 0 |
| FirmwareTypes.GetRelease | Tools/scripts/firmware_version_decoder.py:23-34 | `get_release`: the loop over the reversed enum; ReleaseIsFloor, ReleaseOfByte and ReleaseMonotone state what it returns |
| FirmwareTypes.ReleaseOfByte | Tools/scripts/firmware_version_decoder.py:15-21 | a byte classifies as Dev (0-63), Alpha (64-127), Beta (128-191), RC (192-254) or Official (255); never EnumEnd or "Unknown" |
| FirmwareTypes.ReleaseMonotone | Tools/scripts/firmware_version_decoder.py:31-33 | a larger version never yields a release with a lower value |
| FirmwareTypes.Lookup | Tools/scripts/firmware_version_decoder.py:203-205 | enum construction from a code returns a member that has that code, and fails exactly when no member has it |
| FirmwareTypes.AscendingFirstIsLeast | Tools/scripts/firmware_version_decoder.py:36-95 | in a table whose codes ascend, the first code is the smallest |
| FirmwareTypes.LookupOwnCode | Tools/scripts/firmware_version_decoder.py:203-205 | in a table whose codes ascend, every member is found by its own code |
| FirmwareTypes.VehicleTypeFromCode | Tools/scripts/firmware_version_decoder.py:203 | `VehicleType(code)` returns a member whose value is the code |
| FirmwareTypes.VehicleTypesListed | Tools/scripts/firmware_version_decoder.py:36-46 | the vehicle table lists every member |
| FirmwareTypes.VehicleTypesAscend | Tools/scripts/firmware_version_decoder.py:36-46 | the vehicle codes strictly ascend along the table, so no two members share a value |
| FirmwareTypes.VehicleTypeRejectsOnlyUnknown | Tools/scripts/firmware_version_decoder.py:203 | `VehicleType(code)` raises exactly when no member has the value `code` |
| FirmwareTypes.VehicleTypeFromOwnCode | Tools/scripts/firmware_version_decoder.py:36-46 | every vehicle type is recovered from its own value |
| FirmwareTypes.BoardTypeFromCode | Tools/scripts/firmware_version_decoder.py:204 | `BoardType(code)` returns a member whose value is the code |
| FirmwareTypes.BoardTypesListed | Tools/scripts/firmware_version_decoder.py:49-57 | the board table lists every member |
| FirmwareTypes.BoardTypesAscend | Tools/scripts/firmware_version_decoder.py:49-57 | the board codes strictly ascend along the table |
| FirmwareTypes.BoardTypeRejectsOnlyUnknown | Tools/scripts/firmware_version_decoder.py:204 | `BoardType(code)` raises exactly when no member has the value `code` |
| FirmwareTypes.BoardTypeFromOwnCode | Tools/scripts/firmware_version_decoder.py:49-57 | every board type is recovered from its own value |
| FirmwareTypes.BoardSubTypeFromCode | Tools/scripts/firmware_version_decoder.py:205 | `BoardSubType(code)` returns a member whose value is the code |
| FirmwareTypes.BoardSubTypesListed | Tools/scripts/firmware_version_decoder.py:60-95 | the subtype table lists every member |
| FirmwareTypes.LinuxSubTypesAscend | Tools/scripts/firmware_version_decoder.py:63-85 | the Linux subtype codes strictly ascend |
| FirmwareTypes.ChibiosSubTypesAscend | Tools/scripts/firmware_version_decoder.py:86-95 | the ChibiOS subtype codes strictly ascend |
| FirmwareTypes.BoardSubTypesAscend | Tools/scripts/firmware_version_decoder.py:60-95 | the codes of the whole subtype table, NONE last, strictly ascend |
| FirmwareTypes.BoardSubTypeRejectsOnlyUnknown | Tools/scripts/firmware_version_decoder.py:205 | `BoardSubType(code)` raises exactly when no member has the value `code` |
| FirmwareTypes.BoardSubTypeFromOwnCode | Tools/scripts/firmware_version_decoder.py:60-95 | every board subtype is recovered from its own value |
| FirmwareTypes.SplitDate | Tools/scripts/firmware_version_decoder.py:119-126 | the split yields a day and month below 100 that recombine with the year to the packed value |
| FirmwareTypes.DateRoundTrip | Tools/scripts/firmware_version_decoder.py:122-126 | for day < 100 and month < 100, splitting `year*10000 + month*100 + day` gives back day, month and year |
| FirmwareDecoder.MagicBytes | Tools/scripts/firmware_version_decoder.py:188-190 | the packed magic is 8 bytes that unpack, in the same order, to the magic number |
| FirmwareDecoder.PointerFormat | Tools/scripts/firmware_version_decoder.py:167 | a string pointer is 8 bytes wide when the pointer size is 8 and 4 bytes wide otherwise |
| FirmwareDecoder.OrFail | Tools/scripts/firmware_version_decoder.py:203-205 | enum construction succeeds exactly when a member was found |
| FirmwareDecoder.Take | Tools/scripts/firmware_version_decoder.py:164 | `BytesIO.read(n)` returns exactly min(n, bytes left) bytes, none at or past the end, and they are the image's bytes from the cursor on |
| FirmwareDecoder.Field | Tools/scripts/firmware_version_decoder.py:161-164 | `unpack` succeeds exactly when the image holds the whole field at the cursor, yields a value below 256^size, and fails otherwise with `struct.error` |
| FirmwareDecoder.CStringIsTerminated | Tools/scripts/firmware_version_decoder.py:179-184 | the string read is stored at the address, holds no NUL and is followed by a NUL; it is missing exactly when no NUL follows the address |
| FirmwareDecoder.CString | Tools/scripts/firmware_version_decoder.py:179-184 | the intended NUL-terminated read: CStringIsTerminated and CStringOfTerminated characterise it in both directions, and Decoder.ReadNulTerminated computes it with the source's loop |
| FirmwareDecoder.CStringOfTerminated | Tools/scripts/firmware_version_decoder.py:179-184 | non-NUL bytes stored at the address and followed by a NUL are exactly the string read |
| FirmwareDecoder.StringAt | Tools/scripts/firmware_version_decoder.py:166-186 | a string read from a pointer succeeds only if the image holds the whole pointer |
| FirmwareDecoder.StringAtPointer | Tools/scripts/firmware_version_decoder.py:168-186 | a null pointer yields the empty string; any other pointer yields the string at the translated address |
| FirmwareDecoder.LocateHeader | Tools/scripts/firmware_version_decoder.py:188-190 | `locate_header` returns -1 or an index where the packed magic occurs |
| FirmwareDecoder.LocateHeaderIsFirst | Tools/scripts/firmware_version_decoder.py:188-190 | `locate_header` returns -1 exactly when the packed magic occurs nowhere, and otherwise the least index where it occurs |
| FirmwareDecoder.RecordLength | Tools/scripts/firmware_version_decoder.py:192-221 | the record spans 24 bytes, plus six pointers of 8 or 4 bytes each, plus 4 hash bytes exactly when `header_version >> 8 >= 2` |
| FirmwareDecoder.ParseIdentity | Tools/scripts/firmware_version_decoder.py:197-205 | decoding the identification fields succeeds only if all 8 of their bytes are present |
| FirmwareDecoder.ParseVersion | Tools/scripts/firmware_version_decoder.py:207-211 | decoding the version fields succeeds exactly when all 8 of their bytes are present, and fails otherwise with `struct.error` |
| FirmwareDecoder.ParsePrefix | Tools/scripts/firmware_version_decoder.py:193-211 | a magic mismatch at the cursor fails the assertion; success means the magic is there and the 24 prefix bytes are present |
| FirmwareDecoder.ParseStrings | Tools/scripts/firmware_version_decoder.py:213-221 | success means the whole pointer part is present; without the hash field the record's hash keeps its earlier value |
| FirmwareDecoder.ParseFWVersion | Tools/scripts/firmware_version_decoder.py:192-221 | a magic mismatch fails the assertion; a decoded record lies wholly inside the image |
| FirmwareDecoder.IdentityLayout | Tools/scripts/firmware_version_decoder.py:197-205 | header version, pointer size, vehicle, board and subtype come from offsets 0-1, 2, 4, 5 and 6-7 of the identification; byte 3 is skipped |
| FirmwareDecoder.VersionLayout | Tools/scripts/firmware_version_decoder.py:207-211 | major, minor and patch are bytes 0, 1 and 2; the release type is `get_release` of byte 3 and never EnumEnd; the OS version is bytes 4-7 |
| FirmwareDecoder.PrefixCodeErrors | Tools/scripts/firmware_version_decoder.py:203-205 | an unknown vehicle, board or subtype code is an error naming that code, checked in that order |
| FirmwareDecoder.FirstMatch | Tools/scripts/firmware_version_decoder.py:233-241 | the loop finds an order from its list whose magic occurs at the returned position, and finds none exactly when `locate_header` is -1 for every order |
| FirmwareDecoder.DetectByteOrder | Tools/scripts/firmware_version_decoder.py:233-241 | the endianness loop over `[">", "<"]`; DetectByteOrderCases states its three outcomes and EmptyImageHasNoRecord the empty image |
| FirmwareDecoder.DetectByteOrderCases | Tools/scripts/firmware_version_decoder.py:233-241 | big-endian is chosen whenever its magic occurs, at its first occurrence; little-endian is chosen only when big-endian is absent; otherwise nothing is found |
| FirmwareDecoder.EmptyImageHasNoRecord | Tools/scripts/firmware_version_decoder.py:229-230 | empty data holds no record |
| FirmwareDecoder.Decoder.constructor | Tools/scripts/firmware_version_decoder.py:154-159 | a new decoder has an empty stream, pointer size 0 and the dataclass defaults |
| FirmwareDecoder.Decoder.Read | Tools/scripts/firmware_version_decoder.py:164 | `bytesio.read(n)` returns what `Take` specifies and moves the cursor by the number of bytes returned |
| FirmwareDecoder.Decoder.Unpack | Tools/scripts/firmware_version_decoder.py:161-164 | `unpack` returns what `Field` specifies at the cursor and, on success, moves the cursor by the field's size |
| FirmwareDecoder.Decoder.ReadNulTerminated | Tools/scripts/firmware_version_decoder.py:179-184 | the loop returns the bytes up to, not including, the first NUL from the cursor (what `CString` specifies), and nothing when the image ends first |
| FirmwareDecoder.Decoder.UnpackStringFromPointer | Tools/scripts/firmware_version_decoder.py:166-186 | the result is what `StringAt` specifies; afterwards the cursor is just past the pointer |
| FirmwareDecoder.Decoder.UnpackIdentity | Tools/scripts/firmware_version_decoder.py:197-205 | the fields read are what `ParseIdentity` specifies, and the cursor moves 8 bytes |
| FirmwareDecoder.Decoder.UnpackVersion | Tools/scripts/firmware_version_decoder.py:207-211 | the fields read are what `ParseVersion` specifies, and the cursor moves 8 bytes |
| FirmwareDecoder.Decoder.UnpackPrefix | Tools/scripts/firmware_version_decoder.py:193-211 | the prefix read is what `ParsePrefix` specifies, and the cursor moves exactly 24 bytes |
| FirmwareDecoder.Decoder.UnpackStrings | Tools/scripts/firmware_version_decoder.py:213-221 | the strings read are what `ParseStrings` specifies; the cursor moves 6 pointer widths, plus 4 when hashed |
| FirmwareDecoder.Decoder.UnpackFwversion | Tools/scripts/firmware_version_decoder.py:192-221 | on success `fwversion` is the record `ParseFWVersion` specifies, and the decoder's pointer size is the record's; the cursor moves by `RecordLength`. Otherwise the error is the specification's error |
| FirmwareDecoder.Decoder.DetectEndianness | Tools/scripts/firmware_version_decoder.py:233-241 | finds a record exactly when DetectByteOrder does; then the stream is the image, and byte order and cursor are the detected ones; otherwise stream, cursor and byte order are unchanged |
| FirmwareDecoder.Decoder.Process | Tools/scripts/firmware_version_decoder.py:223-245 | no magic in either order (including empty data) is `NotFound` and leaves stream, cursor, byte order, pointer size and record as they were; otherwise the stream is the image and the byte order the detected one, the record is decoded at the first match of the first order that matches, and on success it is the decoder's `fwversion`, the pointer size is the record's and the cursor is just past the record |
| FirmwareDecoder.StepAsWritten | Tools/scripts/firmware_version_decoder.py:180-184 | once the cursor is past the end with a non-NUL last byte, an iteration of the loop as written changes nothing |
| FirmwareDecoder.RunAsWritten | Tools/scripts/firmware_version_decoder.py:180-184 | the loop as written, iterated a given number of times; UnterminatedStringLoopsForever and AsWrittenAgreesWhenTerminated state where it ends |
| FirmwareDecoder.UnterminatedStringLoopsForever | Tools/scripts/firmware_version_decoder.py:180-184 | as written, a string the image ends before terminating is still being scanned after any number of iterations |
| FirmwareDecoder.UnterminatedStringExample | Tools/scripts/firmware_version_decoder.py:180-184 | on the image `[0x41]`, a scan from address 0 reaches a state that never changes |
| FirmwareDecoder.AsWrittenAgreesWhenTerminated | Tools/scripts/firmware_version_decoder.py:180-184 | on a terminated string, the loop as written stops after length + 1 iterations with the string `CString` reads |
| WPNav.WPNav.constructor | libraries/AC_WPNav/AC_WPNav.h:22 | a new navigator has its parameters, is not paused and has no rangefinder data |
| WPNav.WPNav.SetRangefinderTerrainOffsetCm | libraries/AC_WPNav/AC_WPNav.h:26 | stores availability, health and terrain offset and changes nothing else; "used and healthy" then follows the `use` parameter and the new health, never the `use` argument |
| WPNav.WPNav.RangefinderQueriesIgnoreAvailability | libraries/AC_WPNav/AC_WPNav.h:29-30 | `rangefinder_used()` and `rangefinder_used_and_healthy()` depend only on the `_rangefinder_use` parameter and the health flag: navigators that agree on those answer alike, whatever their `available` flag or terrain offset |
| WPNav.WPNav.TerrainMarginM | libraries/AC_WPNav/AC_WPNav.h:44 | the margin is at least 0.1 and at least the parameter, and is one of the two |
| WPNav.WPNav.SetPause | libraries/AC_WPNav/AC_WPNav.h:64-68 | afterwards `paused()` holds; only the pause flag may change, so the rangefinder queries are unchanged, and a second call changes nothing |
| WPNav.WPNav.SetResume | libraries/AC_WPNav/AC_WPNav.h:64-68 | afterwards `paused()` is false; only the pause flag may change, so the rangefinder queries are unchanged, and a second call changes nothing |
| WPNav.WPNav.DefaultSpeedDownCms | libraries/AC_WPNav/AC_WPNav.h:81 | the descent rate is never negative and has the parameter's magnitude |
| WPNav.WPNav.WpAccelerationCmss | libraries/AC_WPNav/AC_WPNav.h:87 | the acceleration is always positive; it is the parameter exactly when the parameter is positive, and 250 otherwise |
| WPNav.WPNav.CornerAccelerationCmss | libraries/AC_WPNav/AC_WPNav.h:90 | the cornering acceleration is always positive; it is the parameter exactly when the parameter is positive, and twice the waypoint acceleration otherwise |
| WPNav.WPNav.ZeroRadiusNeverReached | libraries/AC_WPNav/AC_WPNav.h:152-154 | with a zero radius, no non-negative distance counts as reached |
| WPNav.WPNav.ReachedCloser | libraries/AC_WPNav/AC_WPNav.h:152-154 | if the waypoint is reached at some distance, it is also reached at any smaller distance |
| WPNav.WPNav.ReachedWiderRadius | libraries/AC_WPNav/AC_WPNav.h:152-154 | arrival is monotone in the radius: a navigator with a radius at least as large has arrived whenever this one has |
| WPNav.WPNav.ReachedAtZero | libraries/AC_WPNav/AC_WPNav.h:152-154 | a vehicle on the waypoint has arrived exactly when the radius is positive |

## Left out

- ELF handling. `elftools` is foreign code. The address translation is a total function `addressOffsets` supplied to `Process`, so the `StopIteration` that `next(...)` could raise is not modelled.
- File and command-line plumbing is not modelled:
  - opening the file and argument parsing;
  - printing;
  - exit codes;
  - the expected-hash comparison.
  `Process` takes the image's bytes directly.
- Text. UTF-8 decoding of the strings is not modelled: strings are raw byte sequences. `__str__` formatting is left out, except for its date arithmetic (`SplitDate`).
- The decoder's initial byte order `""` (native order) is never used before `process` sets an explicit one. The constructor sets it to little-endian.
- FirmwareDecoder.Decoder.UnpackFwversion: the script assigns `fwversion` field by field. An exception part-way therefore leaves a partly updated record. The model assigns the record once, on success only. After an exception the script's `fwversion` is not used again, and it is never observed between fields.
- FirmwareDecoder.Decoder.ReadNulTerminated: where the script loops for ever, or raises `IndexError` because the first read is past the end, the model returns `UnterminatedString` (see Findings).
- WPNav: single-precision float rounding is not modelled.
  - Parameters are `real`.
  - `MAX(_terrain_margin_m, 0.1)` uses the real constant 0.1.
  - `is_positive` is `x >= FLT_EPSILON` with FLT_EPSILON = 2^-23, following ArduPilot's AP_Math. AP_Math is not part of this model.
- WPNav.WPNav.constructor: the constructor's body is not in the header. The initial values of the pause and rangefinder fields are an assumption.
- WPNav.WPNav.ReachedWpDestinationNE: `get_wp_distance_to_destination_cm()` is only declared in the header. The distance is the member's argument.
- WPNav: members whose bodies are not in the header are not modelled, because only their declarations are shown. They are:
  - terrain source and offset;
  - destination and spline setters;
  - S-curve and track updates;
  - `update_wpnav`, `is_active`, `force_stop_at_next_wp`;
  - stopping point, distance and bearing.
- WPNav: the getters that forward to the position controller (lines 207-234) are not modelled. That controller is not part of this model.
- WPNav: parameter storage (`var_info`, `AP_Param`) is not modelled. The parameters are one `Params` value.
- WPNav: `get_default_speed_NE_cms`, `get_default_speed_up_cms`, `get_accel_U_cmss`, `paused` and `get_wp_radius_cm` are plain field reads. `DefaultSpeedNECms`, `DefaultSpeedUpCms`, `AccelUCmss` and `Paused` have no contract of their own; `get_wp_radius_cm` is the `params.wpRadiusCm` field. `RangefinderUsed`, `RangefinderUsedAndHealthy` and `ReachedWpDestinationNE` have no contract of their own either. Their properties are stated by RangefinderQueriesIgnoreAvailability, by the ensures of SetRangefinderTerrainOffsetCm, SetPause and SetResume, and by ZeroRadiusNeverReached, ReachedCloser, ReachedWiderRadius and ReachedAtZero.
- WPNav.WPNav.AccelUCmss: line 83 documents `get_accel_U_cmss` as always positive, but its body only reads `_wp_accel_z_cmss` and the header does nothing to keep that parameter positive. The model promises nothing about its sign.
- ByteCodec.Encode: for x ≥ 256^n it keeps the low n bytes, where `struct.pack` raises `struct.error`. The only value ever packed is the magic, which fits in 8 bytes (MagicBytes), so that error path is not modelled.

## Findings

| source | as written | input that shows it | evidently intended | confidence | as-written member | corrected member |
|---|---|---|---|---|---|---|
| Tools/scripts/firmware_version_decoder.py:180-184 | `while True: string += bytesio.read(1); if string[-1] == 0: ... break`. Past the end of the image `read(1)` returns `b""`, so `string[-1]` is the same non-NUL byte on every iteration and the loop never ends. | an image `[0x41]` whose string pointer translates to address 0: the scan appends `0x41`, then reads nothing for ever | stop with an error when the image ends before a NUL byte | not executed | FirmwareDecoder.UnterminatedStringLoopsForever | FirmwareDecoder.Decoder.ReadNulTerminated |
