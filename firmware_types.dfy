/** The enumerations of the `FWVersion` record (release type, vehicle, board,
    board subtype), the "closest release going down" classification of a raw
    firmware-type byte, and the split of the packed `YYYYMMDD` OS software
    version into day, month and year. */
module FirmwareTypes {
  import opened Wrappers

  // ---------------------------------------------------------------------------
  // Release type

  datatype FirmwareVersionType = Dev | Alpha | Beta | RC | Official | EnumEnd {
    function Value(): nat {
      match this
      case Dev => 0
      case Alpha => 64
      case Beta => 128
      case RC => 192
      case Official => 255
      case EnumEnd => 256
    }
  }

  /** The members in definition order, which is the order Python iterates an enum in. */
  const Definitions: seq<FirmwareVersionType> := [Dev, Alpha, Beta, RC, Official, EnumEnd]

  /** What `get_release` returns: an enum member, or the string "Unknown". */
  datatype Release = Member(kind: FirmwareVersionType) | Unknown

  function Reverse<T>(s: seq<T>): (r: seq<T>)
    ensures |r| == |s| && forall i :: 0 <= i < |s| ==> r[i] == s[|s| - 1 - i]
  {
    if s == [] then [] else Reverse(s[1..]) + [s[0]]
  }

  /** The loop of `get_release`: the first candidate whose value is at most
      `version`, or Unknown when there is none. */
  function FirstAtOrBelow(candidates: seq<FirmwareVersionType>, version: int): (r: Release)
    ensures r.Unknown? <==> forall i :: 0 <= i < |candidates| ==> version < candidates[i].Value()
    ensures r.Member? ==> exists i :: 0 <= i < |candidates| && candidates[i] == r.kind
                                    && r.kind.Value() <= version
                                    && forall j :: 0 <= j < i ==> version < candidates[j].Value()
  {
    if candidates == [] then Unknown
    else if version >= candidates[0].Value() then Member(candidates[0])
    else
      var r := FirstAtOrBelow(candidates[1..], version);
      if r.Member? then
        var i :| 0 <= i < |candidates| - 1 && candidates[1..][i] == r.kind
                 && r.kind.Value() <= version
                 && forall j :: 0 <= j < i ==> version < candidates[1..][j].Value();
        assert candidates[i + 1] == r.kind;
        r
      else r
  }

  /** `FirmwareVersionType.get_release`. */
  function GetRelease(version: int): Release {
    FirstAtOrBelow(Reverse(Definitions), version)
  }

  /** Value of a release result, -1 standing for "Unknown". */
  function ReleaseValue(r: Release): int {
    match r
    case Member(k) => k.Value()
    case Unknown => -1
  }

  predicate Descending(c: seq<FirmwareVersionType>) {
    forall i, j :: 0 <= i < j < |c| ==> c[j].Value() < c[i].Value()
  }

  lemma {:induction false} FirstAtOrBelowIsGreatest(c: seq<FirmwareVersionType>, version: int)
    requires Descending(c)
    ensures FirstAtOrBelow(c, version).Member? ==>
              forall i :: 0 <= i < |c| && c[i].Value() <= version ==>
                c[i].Value() <= FirstAtOrBelow(c, version).kind.Value()
  {
    if c != [] && version < c[0].Value() {
      FirstAtOrBelowIsGreatest(c[1..], version);
      forall i | 0 <= i < |c| && c[i].Value() <= version
        ensures 1 <= i && c[i] == c[1..][i - 1]
      {
      }
    }
  }

  lemma MemberListed(m: FirmwareVersionType)
    ensures m in Definitions
  {
    match m
    case Dev => assert Definitions[0] == m;
    case Alpha => assert Definitions[1] == m;
    case Beta => assert Definitions[2] == m;
    case RC => assert Definitions[3] == m;
    case Official => assert Definitions[4] == m;
    case EnumEnd => assert Definitions[5] == m;
  }

  /** `reversed(FirmwareVersionType)` visits the members from the highest value down. */
  lemma ReversedDefinitions()
    ensures Reverse(Definitions) == [EnumEnd, Official, RC, Beta, Alpha, Dev]
    ensures Descending(Reverse(Definitions))
  {
    var c := Reverse(Definitions);
    assert c[0] == EnumEnd && c[1] == Official && c[2] == RC;
    assert c[3] == Beta && c[4] == Alpha && c[5] == Dev;
  }

  /** `get_release(v)` is the member with the largest value at most `v`, and it is
      "Unknown" exactly when `v` is negative. */
  lemma ReleaseIsFloor(version: int)
    ensures GetRelease(version).Unknown? <==> version < 0
    ensures GetRelease(version).Member? ==>
              GetRelease(version).kind.Value() <= version &&
              forall m: FirmwareVersionType :: m.Value() <= version ==>
                m.Value() <= GetRelease(version).kind.Value()
  {
    var c := Reverse(Definitions);
    ReversedDefinitions();
    assert c[5] == Dev;
    FirstAtOrBelowIsGreatest(c, version);
    forall m: FirmwareVersionType | m.Value() <= version && GetRelease(version).Member?
      ensures m.Value() <= GetRelease(version).kind.Value()
    {
      MemberListed(m);
      var i :| 0 <= i < |Definitions| && Definitions[i] == m;
      assert c[5 - i] == m;
    }
  }

  /** The classification of every byte value; a byte is never classified `EnumEnd`. */
  lemma ReleaseOfByte(v: int)
    requires 0 <= v < 256
    ensures 0 <= v < 64 ==> GetRelease(v) == Member(Dev)
    ensures 64 <= v < 128 ==> GetRelease(v) == Member(Alpha)
    ensures 128 <= v < 192 ==> GetRelease(v) == Member(Beta)
    ensures 192 <= v < 255 ==> GetRelease(v) == Member(RC)
    ensures v == 255 ==> GetRelease(v) == Member(Official)
    ensures GetRelease(v) != Member(EnumEnd) && GetRelease(v) != Unknown
  {
    ReleaseIsFloor(v);
    var k := GetRelease(v).kind;
    assert Dev.Value() <= v ==> Dev.Value() <= k.Value();
    assert Alpha.Value() <= v ==> Alpha.Value() <= k.Value();
    assert Beta.Value() <= v ==> Beta.Value() <= k.Value();
    assert RC.Value() <= v ==> RC.Value() <= k.Value();
    assert Official.Value() <= v ==> Official.Value() <= k.Value();
  }

  /** A larger firmware-type value never yields a lower release. */
  lemma ReleaseMonotone(v1: int, v2: int)
    requires v1 <= v2
    ensures ReleaseValue(GetRelease(v1)) <= ReleaseValue(GetRelease(v2))
  {
    ReleaseIsFloor(v1);
    ReleaseIsFloor(v2);
    if GetRelease(v1).Member? {
      var k1 := GetRelease(v1).kind;
      assert k1.Value() <= v2;
    }
  }

  // ---------------------------------------------------------------------------
  // Vehicle, board and board subtype: constructing the enum from its code
  // raises ValueError for a code that names no member, modelled as None

  /** `Enum(code)`: the first of `members` whose code is `code`, or None where
      Python raises ValueError. */
  function Lookup<T>(members: seq<T>, codeOf: T -> nat, code: int): (r: Option<T>)
    ensures r.Some? ==> r.value in members && codeOf(r.value) == code
    ensures r.None? <==> forall i :: 0 <= i < |members| ==> codeOf(members[i]) != code
  {
    if members == [] then None
    else if codeOf(members[0]) == code then Some(members[0])
    else
      var r := Lookup(members[1..], codeOf, code);
      assert forall i :: 1 <= i < |members| ==> members[i] == members[1..][i - 1];
      r
  }

  /** The codes of `members` increase along the sequence. */
  predicate Ascending<T>(members: seq<T>, codeOf: T -> nat) {
    forall i :: 0 < i < |members| ==> codeOf(members[i - 1]) < codeOf(members[i])
  }

  lemma {:induction false} AscendingFirstIsLeast<T>(members: seq<T>, codeOf: T -> nat, k: nat)
    requires Ascending(members, codeOf)
    requires 0 < k < |members|
    ensures codeOf(members[0]) < codeOf(members[k])
  {
    if k > 1 {
      AscendingFirstIsLeast(members, codeOf, k - 1);
    }
  }

  /** In a table whose codes ascend, every member is found by its own code. */
  lemma {:induction false} LookupOwnCode<T>(members: seq<T>, codeOf: T -> nat, x: T)
    requires x in members
    requires Ascending(members, codeOf)
    ensures Lookup(members, codeOf, codeOf(x)) == Some(x)
  {
    if members[0] != x {
      var k :| 0 < k < |members| && members[k] == x;
      AscendingFirstIsLeast(members, codeOf, k);
      assert members[1..][k - 1] == x;
      assert Ascending(members[1..], codeOf) by {
        forall i | 0 < i < |members[1..]|
          ensures codeOf(members[1..][i - 1]) < codeOf(members[1..][i])
        {
          assert members[1..][i - 1] == members[i] && members[1..][i] == members[i + 1];
        }
      }
      LookupOwnCode(members[1..], codeOf, x);
    }
  }

  datatype VehicleType =
    | Rover | ArduCopter | ArduPlane | AntennaTracker | UNKNOWN | Replay | ArduSub
    | iofirmware | AP_Periph | NONE
  {
    function Code(): nat {
      match this
      case Rover => 1
      case ArduCopter => 2
      case ArduPlane => 3
      case AntennaTracker => 4
      case UNKNOWN => 5
      case Replay => 6
      case ArduSub => 7
      case iofirmware => 8
      case AP_Periph => 9
      case NONE => 256
    }
  }

  const VehicleTypes: seq<VehicleType> := [
    Rover, ArduCopter, ArduPlane, AntennaTracker, VehicleType.UNKNOWN, Replay, ArduSub,
    iofirmware, AP_Periph, VehicleType.NONE]

  /** `VehicleType(code)`. */
  function VehicleTypeFromCode(code: int): (r: Option<VehicleType>)
    ensures r.Some? ==> r.value.Code() == code
  {
    Lookup(VehicleTypes, (v: VehicleType) => v.Code(), code)
  }

  datatype BoardType = SITL | SMACCM | PX4 | LINUX | VRBRAIN | CHIBIOS | F4LIGHT | EMPTY {
    function Code(): nat {
      match this
      case SITL => 3
      case SMACCM => 4
      case PX4 => 5
      case LINUX => 7
      case VRBRAIN => 8
      case CHIBIOS => 10
      case F4LIGHT => 11
      case EMPTY => 99
    }
  }

  const BoardTypes: seq<BoardType> := [
    SITL, SMACCM, PX4, LINUX, VRBRAIN, CHIBIOS, F4LIGHT, EMPTY]

  /** `BoardType(code)`. */
  function BoardTypeFromCode(code: int): (r: Option<BoardType>)
    ensures r.Some? ==> r.value.Code() == code
  {
    Lookup(BoardTypes, (b: BoardType) => b.Code(), code)
  }

  datatype BoardSubType =
    | NONE
    | LINUX_NONE | LINUX_ERLEBOARD | LINUX_PXF | LINUX_NAVIO | LINUX_ZYNQ | LINUX_BBBMINI
    | LINUX_BEBOP | LINUX_ERLEBRAIN2 | LINUX_BH | LINUX_PXFMINI | LINUX_NAVIO2 | LINUX_DISCO
    | LINUX_AERO | LINUX_DARK | LINUX_BLUE | LINUX_OCPOC_ZYNQ | LINUX_EDGE | LINUX_RST_ZYNQ
    | LINUX_POCKET | LINUX_NAVIGATOR | LINUX_VNAV | LINUX_OBAL | LINUX_CANZERO
    | CHIBIOS_SKYVIPER_F412 | CHIBIOS_FMUV3 | CHIBIOS_FMUV4 | CHIBIOS_GENERIC | CHIBIOS_FMUV5
    | CHIBIOS_VRBRAIN_V51 | CHIBIOS_VRBRAIN_V52 | CHIBIOS_VRUBRAIN_V51 | CHIBIOS_VRCORE_V10
    | CHIBIOS_VRBRAIN_V54
  {
    function Code(): nat {
      match this
      case NONE => 65535
      case LINUX_NONE => 1000
      case LINUX_ERLEBOARD => 1001
      case LINUX_PXF => 1002
      case LINUX_NAVIO => 1003
      case LINUX_ZYNQ => 1004
      case LINUX_BBBMINI => 1005
      case LINUX_BEBOP => 1006
      case LINUX_ERLEBRAIN2 => 1009
      case LINUX_BH => 1010
      case LINUX_PXFMINI => 1012
      case LINUX_NAVIO2 => 1013
      case LINUX_DISCO => 1014
      case LINUX_AERO => 1015
      case LINUX_DARK => 1016
      case LINUX_BLUE => 1018
      case LINUX_OCPOC_ZYNQ => 1019
      case LINUX_EDGE => 1020
      case LINUX_RST_ZYNQ => 1021
      case LINUX_POCKET => 1022
      case LINUX_NAVIGATOR => 1023
      case LINUX_VNAV => 1024
      case LINUX_OBAL => 1025
      case LINUX_CANZERO => 1026
      case CHIBIOS_SKYVIPER_F412 => 5000
      case CHIBIOS_FMUV3 => 5001
      case CHIBIOS_FMUV4 => 5002
      case CHIBIOS_GENERIC => 5009
      case CHIBIOS_FMUV5 => 5013
      case CHIBIOS_VRBRAIN_V51 => 5016
      case CHIBIOS_VRBRAIN_V52 => 5017
      case CHIBIOS_VRUBRAIN_V51 => 5018
      case CHIBIOS_VRCORE_V10 => 5019
      case CHIBIOS_VRBRAIN_V54 => 5020
    }
  }

  const LinuxSubTypes: seq<BoardSubType> := [
    LINUX_NONE, LINUX_ERLEBOARD, LINUX_PXF, LINUX_NAVIO, LINUX_ZYNQ,
    LINUX_BBBMINI, LINUX_BEBOP, LINUX_ERLEBRAIN2, LINUX_BH, LINUX_PXFMINI, LINUX_NAVIO2,
    LINUX_DISCO, LINUX_AERO, LINUX_DARK, LINUX_BLUE, LINUX_OCPOC_ZYNQ, LINUX_EDGE,
    LINUX_RST_ZYNQ, LINUX_POCKET, LINUX_NAVIGATOR, LINUX_VNAV, LINUX_OBAL, LINUX_CANZERO]

  const ChibiosSubTypes: seq<BoardSubType> := [
    CHIBIOS_SKYVIPER_F412, CHIBIOS_FMUV3, CHIBIOS_FMUV4, CHIBIOS_GENERIC, CHIBIOS_FMUV5,
    CHIBIOS_VRBRAIN_V51, CHIBIOS_VRBRAIN_V52, CHIBIOS_VRUBRAIN_V51, CHIBIOS_VRCORE_V10,
    CHIBIOS_VRBRAIN_V54]

  /** The Linux subtypes (codes from 1000), the ChibiOS ones (from 5000), then NONE. */
  const BoardSubTypes: seq<BoardSubType> := LinuxSubTypes + ChibiosSubTypes + [BoardSubType.NONE]

  /** `BoardSubType(code)`. */
  function BoardSubTypeFromCode(code: int): (r: Option<BoardSubType>)
    ensures r.Some? ==> r.value.Code() == code
  {
    Lookup(BoardSubTypes, (t: BoardSubType) => t.Code(), code)
  }

  /** The table lists every VehicleType member ... */
  lemma VehicleTypesListed(v: VehicleType)
    ensures v in VehicleTypes
  {
  }

  /** ... in ascending order of code, so no two members share a code. */
  lemma VehicleTypesAscend()
    ensures forall i :: 0 < i < |VehicleTypes| ==> VehicleTypes[i - 1].Code() < VehicleTypes[i].Code()
  {
  }

  /** `VehicleType(code)` raises exactly when no member has the code. */
  lemma VehicleTypeRejectsOnlyUnknown(code: int)
    ensures VehicleTypeFromCode(code).None? <==> forall v: VehicleType :: v.Code() != code
  {
    if VehicleTypeFromCode(code).None? {
      forall v: VehicleType
        ensures v.Code() != code
      {
        VehicleTypesListed(v);
        var i :| 0 <= i < |VehicleTypes| && VehicleTypes[i] == v;
      }
    }
  }

  /** Every member is recovered from its own code. */
  lemma VehicleTypeFromOwnCode(v: VehicleType)
    ensures VehicleTypeFromCode(v.Code()) == Some(v)
  {
    VehicleTypesListed(v);
    VehicleTypesAscend();
    assert Ascending(VehicleTypes, (x: VehicleType) => x.Code());
    LookupOwnCode(VehicleTypes, (x: VehicleType) => x.Code(), v);
  }

  /** The table lists every BoardType member ... */
  lemma BoardTypesListed(b: BoardType)
    ensures b in BoardTypes
  {
  }

  /** ... in ascending order of code, so no two members share a code. */
  lemma BoardTypesAscend()
    ensures forall i :: 0 < i < |BoardTypes| ==> BoardTypes[i - 1].Code() < BoardTypes[i].Code()
  {
  }

  /** `BoardType(code)` raises exactly when no member has the code. */
  lemma BoardTypeRejectsOnlyUnknown(code: int)
    ensures BoardTypeFromCode(code).None? <==> forall b: BoardType :: b.Code() != code
  {
    if BoardTypeFromCode(code).None? {
      forall b: BoardType
        ensures b.Code() != code
      {
        BoardTypesListed(b);
        var i :| 0 <= i < |BoardTypes| && BoardTypes[i] == b;
      }
    }
  }

  /** Every member is recovered from its own code. */
  lemma BoardTypeFromOwnCode(b: BoardType)
    ensures BoardTypeFromCode(b.Code()) == Some(b)
  {
    BoardTypesListed(b);
    BoardTypesAscend();
    assert Ascending(BoardTypes, (x: BoardType) => x.Code());
    LookupOwnCode(BoardTypes, (x: BoardType) => x.Code(), b);
  }

  /** The table lists every BoardSubType member ... */
  lemma BoardSubTypesListed(t: BoardSubType)
    ensures t in BoardSubTypes
  {
  }

  lemma LinuxSubTypesAscend()
    ensures forall i :: 0 < i < |LinuxSubTypes| ==> LinuxSubTypes[i - 1].Code() < LinuxSubTypes[i].Code()
  {
  }

  lemma ChibiosSubTypesAscend()
    ensures forall i :: 0 < i < |ChibiosSubTypes| ==> ChibiosSubTypes[i - 1].Code() < ChibiosSubTypes[i].Code()
  {
  }

  /** ... in ascending order of code, so no two members share a code. */
  lemma BoardSubTypesAscend()
    ensures forall i :: 0 < i < |BoardSubTypes| ==> BoardSubTypes[i - 1].Code() < BoardSubTypes[i].Code()
  {
    LinuxSubTypesAscend();
    ChibiosSubTypesAscend();
    var s := BoardSubTypes;
    var n := |LinuxSubTypes|;
    forall i | 0 < i < |s|
      ensures s[i - 1].Code() < s[i].Code()
    {
      if i < n {
        assert s[i - 1] == LinuxSubTypes[i - 1] && s[i] == LinuxSubTypes[i];
      } else if i == n {
        assert s[i - 1] == LINUX_CANZERO && s[i] == CHIBIOS_SKYVIPER_F412;
      } else if i < |s| - 1 {
        assert s[i - 1] == ChibiosSubTypes[i - 1 - n] && s[i] == ChibiosSubTypes[i - n];
      } else {
        assert s[i - 1] == CHIBIOS_VRBRAIN_V54 && s[i] == BoardSubType.NONE;
      }
    }
  }

  /** `BoardSubType(code)` raises exactly when no member has the code. */
  lemma BoardSubTypeRejectsOnlyUnknown(code: int)
    ensures BoardSubTypeFromCode(code).None? <==> forall t: BoardSubType :: t.Code() != code
  {
    if BoardSubTypeFromCode(code).None? {
      forall t: BoardSubType
        ensures t.Code() != code
      {
        BoardSubTypesListed(t);
        var i :| 0 <= i < |BoardSubTypes| && BoardSubTypes[i] == t;
      }
    }
  }

  /** Every member is recovered from its own code. */
  lemma BoardSubTypeFromOwnCode(t: BoardSubType)
    ensures BoardSubTypeFromCode(t.Code()) == Some(t)
  {
    BoardSubTypesListed(t);
    BoardSubTypesAscend();
    assert Ascending(BoardSubTypes, (x: BoardSubType) => x.Code());
    LookupOwnCode(BoardSubTypes, (x: BoardSubType) => x.Code(), t);
  }

  // ---------------------------------------------------------------------------
  // OS software version, packed as the decimal digits YYYYMMDD

  datatype SoftwareDate = SoftwareDate(day: nat, month: nat, year: nat)

  /** The date arithmetic of `FWVersion.__str__`. The divisions there are float
      divisions truncated by `int(...)`. Both dividends are exact multiples of the
      divisor, and for the 32-bit value an `I` field holds they lie below 2^53, so
      the float divisions are exact and equal integer division. The model uses
      integer division for every value. */
  function SplitDate(version: nat): (d: SoftwareDate)
    ensures d.day < 100 && d.month < 100
    ensures version == d.year * 10000 + d.month * 100 + d.day
  {
    var day := version % 100;
    var q, r := version / 10000, version % 10000;
    assert version == 10000 * q + r;
    assert day == r % 100 by {
      assert version == 100 * (100 * q) + r;
    }
    var monthRaw := version % 10000 - day;
    assert monthRaw == 100 * (r / 100);
    var yearRaw := version - monthRaw - day;
    assert yearRaw == 10000 * q;
    SoftwareDate(day, monthRaw / 100, yearRaw / 10000)
  }

  /** Packing a date and splitting it again recovers day, month and year. */
  lemma DateRoundTrip(day: nat, month: nat, year: nat)
    requires day < 100 && month < 100
    ensures SplitDate(year * 10000 + month * 100 + day) == SoftwareDate(day, month, year)
  {
    var v := year * 10000 + month * 100 + day;
    var d := SplitDate(v);
    var low := month * 100 + day;
    assert low < 10000;
    assert v / 10000 == year && v % 10000 == low by {
      assert v == 10000 * year + low;
    }
    assert d.year == year by {
      assert d.month * 100 + d.day < 10000;
      assert v == 10000 * d.year + (d.month * 100 + d.day);
    }
    assert d.month * 100 + d.day == low;
    assert low / 100 == month && low % 100 == day by {
      assert low == 100 * month + day;
    }
    assert d.day == day by {
      assert d.month * 100 + d.day == 100 * d.month + d.day;
    }
  }
}
